/**
 * The NBD client over a byte stream that may be cut anywhere, talking to a server that
 * follows the NBD protocol document (proto.md, "Newstyle negotiation" and "Simple reply message").
 */
module NbdClient {
  import opened Bytes
  import opened Files

  const REQUEST_MAGIC := 0x2560_9513
  const REPLY_MAGIC := 0x6744_6698
  const NBDMAGIC: seq<Byte> := [0x4E, 0x42, 0x44, 0x4D, 0x41, 0x47, 0x49, 0x43]
  const IHAVEOPT := 0x4948_4156_454F_5054
  const OPT_EXPORT_NAME := 1
  const CMD_READ := 0
  const CMD_DISC := 2
  const EINVAL := 22

  // ---------------------------------------------------------------- wire format

  datatype Request = Request(command: nat, handle: nat, offset: nat, length: nat) {
    predicate Fits() {
      command < 0x1_0000 && handle < U64_LIMIT && offset < U64_LIMIT && length < U32_LIMIT
    }

    function Encode(): (s: seq<Byte>)
      ensures |s| == 28
    {
      BeBytes(REQUEST_MAGIC, 4) + BeBytes(0, 2) + BeBytes(command, 2)
      + BeBytes(handle, 8) + BeBytes(offset, 8) + BeBytes(length, 4)
    }
  }

  function DecodeRequest(s: seq<Byte>): Option<Request>
    requires |s| == 28
  {
    if BeValue(s[..4]) != REQUEST_MAGIC then None
    else Some(Request(BeValue(s[6..8]), BeValue(s[8..16]), BeValue(s[16..24]), BeValue(s[24..28])))
  }

  /** The six fields of a request are found again at their places. */
  lemma RequestFields(magic: seq<Byte>, flags: seq<Byte>, command: seq<Byte>, handle: seq<Byte>, offset: seq<Byte>,
                      length: seq<Byte>)
    requires |magic| == 4 && |flags| == 2 && |command| == 2 && |handle| == 8 && |offset| == 8 && |length| == 4
    ensures var s := magic + flags + command + handle + offset + length;
            && s[..4] == magic && s[6..8] == command && s[8..16] == handle
            && s[16..24] == offset && s[24..28] == length
  {
  }

  lemma RequestRoundTrip(q: Request)
    requires q.Fits()
    ensures DecodeRequest(q.Encode()) == Some(q)
  {
    Widths();
    RequestFields(BeBytes(REQUEST_MAGIC, 4), BeBytes(0, 2), BeBytes(q.command, 2), BeBytes(q.handle, 8),
                  BeBytes(q.offset, 8), BeBytes(q.length, 4));
    BeRoundTrip(REQUEST_MAGIC, 4);
    BeRoundTrip(q.command, 2);
    BeRoundTrip(q.handle, 8);
    BeRoundTrip(q.offset, 8);
    BeRoundTrip(q.length, 4);
  }

  function ReplyHeader(error: nat, handle: nat): (s: seq<Byte>)
    ensures |s| == 16
  {
    BeBytes(REPLY_MAGIC, 4) + BeBytes(error, 4) + BeBytes(handle, 8)
  }

  lemma ReplyHeaderFields(error: nat, handle: nat)
    requires error < U32_LIMIT && handle < U64_LIMIT
    ensures var s := ReplyHeader(error, handle);
            BeValue(s[..4]) == REPLY_MAGIC && BeValue(s[4..8]) == error && BeValue(s[8..16]) == handle
  {
    Widths();
    var s := ReplyHeader(error, handle);
    assert s[..4] == BeBytes(REPLY_MAGIC, 4) && s[4..8] == BeBytes(error, 4) && s[8..16] == BeBytes(handle, 8);
    BeRoundTrip(REPLY_MAGIC, 4);
    BeRoundTrip(error, 4);
    BeRoundTrip(handle, 8);
  }

  /** The bytes a read asks for, which follow the header unless it reports an error. */
  function ReadData(exported: seq<Byte>, code: nat, q: Request): seq<Byte>
    requires q.offset + q.length <= |exported|
  {
    if code != 0 then [] else exported[q.offset..q.offset + q.length]
  }

  function ReadReply(exported: seq<Byte>, code: nat, q: Request): seq<Byte>
    requires q.offset + q.length <= |exported|
  {
    ReplyHeader(code, q.handle) + ReadData(exported, code, q)
  }

  /** How the client reads a reply header; `None` means that data follow. */
  function CheckHeader(head: seq<Byte>, handle: nat): Option<NbdError>
    requires |head| == 16
  {
    if BeValue(head[..4]) != REPLY_MAGIC then Some(InvalidData)
    else if BeValue(head[4..8]) != 0 then Some(ServerError(BeValue(head[4..8])))
    else if BeValue(head[8..16]) != handle then Some(InvalidData)
    else None
  }

  lemma ReadReplyParts(exported: seq<Byte>, code: nat, q: Request)
    requires q.offset + q.length <= |exported|
    requires code < U32_LIMIT && q.handle < U64_LIMIT
    ensures var s := ReadReply(exported, code, q);
            && |s| >= 16
            && CheckHeader(s[..16], q.handle) == (if code == 0 then None else Some(ServerError(code)))
            && s[16..] == ReadData(exported, code, q)
  {
    assert ReadReply(exported, code, q)[..16] == ReplyHeader(code, q.handle);
    ReplyHeaderFields(code, q.handle);
  }

  function Banner(serverFlags: nat): (s: seq<Byte>)
    ensures |s| == 18
  {
    NBDMAGIC + BeBytes(IHAVEOPT, 8) + BeBytes(serverFlags, 2)
  }

  /** The client does not ask for the padding to be left out, so 124 zeros follow. */
  function ExportReply(size: nat, flags: nat): (s: seq<Byte>)
    ensures |s| == 134
  {
    BeBytes(size, 8) + BeBytes(flags, 2) + Zeros(124)
  }

  function OptionRequest(): (s: seq<Byte>)
    ensures |s| == 16
  {
    BeBytes(IHAVEOPT, 8) + BeBytes(OPT_EXPORT_NAME, 4) + BeBytes(0, 4)
  }

  // ---------------------------------------------------------------- the bytes on the wire

  lemma LowByte(v: nat, q: nat, low: Byte, n: nat)
    requires v == q * 256 + low
    ensures BeBytes(v, n + 1) == BeBytes(q, n) + [low]
  {
  }

  lemma TwoBytes(v: nat, n: nat, a: Byte, b: Byte)
    requires n == 2 && v == a * 0x100 + b
    ensures BeBytes(v, n) == [a, b]
  {
    LowByte(v, a, b, n - 1);
    LowByte(a, 0, a, n - 2);
  }

  lemma FourBytes(v: nat, n: nat, a: Byte, b: Byte, c: Byte, d: Byte)
    requires n == 4 && v == a * 0x100_0000 + b * 0x1_0000 + c * 0x100 + d
    ensures BeBytes(v, n) == [a, b, c, d]
  {
    LowByte(v, a * 0x1_0000 + b * 0x100 + c, d, n - 1);
    LowByte(a * 0x1_0000 + b * 0x100 + c, a * 0x100 + b, c, n - 2);
    TwoBytes(a * 0x100 + b, n - 2, a, b);
  }

  lemma EightBytes(v: nat, n: nat, high: nat, e: Byte, f: Byte, g: Byte, h: Byte)
    requires n == 8 && v == high * 0x1_0000_0000 + e * 0x100_0000 + f * 0x1_0000 + g * 0x100 + h
    ensures BeBytes(v, n) == BeBytes(high, n - 4) + [e, f, g, h]
  {
    var three := high * 256 + e;
    var two := three * 256 + f;
    var one := two * 256 + g;
    LowByte(v, one, h, n - 1);
    LowByte(one, two, g, n - 2);
    LowByte(two, three, f, n - 3);
    LowByte(three, high, e, n - 4);
  }

  /** A read on the wire. */
  lemma ReadOnWire(id: nat, offset: nat, n: nat)
    ensures Request(0, id, offset, n).Encode() ==
            [0x25, 0x60, 0x95, 0x13] + [0, 0] + [0, 0] + BeBytes(id, 8) + BeBytes(offset, 8) + BeBytes(n, 4)
  {
    FourBytes(REQUEST_MAGIC, 4, 0x25, 0x60, 0x95, 0x13);
    TwoBytes(0, 2, 0, 0);
  }

  /** The end of a session on the wire. */
  lemma FarewellOnWire(id: nat)
    ensures Farewell(id) ==
            [0x25, 0x60, 0x95, 0x13] + [0, 0] + [0, 2] + BeBytes(id, 8) + BeBytes(0, 8) + BeBytes(0, 4)
  {
    FourBytes(REQUEST_MAGIC, 4, 0x25, 0x60, 0x95, 0x13);
    TwoBytes(0, 2, 0, 0);
    TwoBytes(2, 2, 0, 2);
  }

  /** The answer to a read on the wire. */
  lemma ReplyOnWire(error: nat, id: nat)
    ensures ReplyHeader(error, id) == [0x67, 0x44, 0x66, 0x98] + BeBytes(error, 4) + BeBytes(id, 8)
  {
    FourBytes(REPLY_MAGIC, 4, 0x67, 0x44, 0x66, 0x98);
  }

  lemma HaveOptOnWire()
    ensures BeBytes(IHAVEOPT, 8) == [0x49, 0x48, 0x41, 0x56] + [0x45, 0x4F, 0x50, 0x54]
  {
    EightBytes(IHAVEOPT, 8, 0x4948_4156, 0x45, 0x4F, 0x50, 0x54);
    FourBytes(0x4948_4156, 4, 0x49, 0x48, 0x41, 0x56);
  }

  /** The server's greeting and the client's option on the wire: "NBDMAGIC", and in both "IHAVEOPT". */
  lemma NegotiationOnWire(serverFlags: nat)
    ensures Banner(serverFlags) ==
            [0x4E, 0x42, 0x44, 0x4D, 0x41, 0x47, 0x49, 0x43]
            + ([0x49, 0x48, 0x41, 0x56] + [0x45, 0x4F, 0x50, 0x54]) + BeBytes(serverFlags, 2)
    ensures OptionRequest() == ([0x49, 0x48, 0x41, 0x56] + [0x45, 0x4F, 0x50, 0x54]) + [0, 0, 0, 1] + [0, 0, 0, 0]
    ensures BeBytes(1, 4) == [0, 0, 0, 1]
  {
    HaveOptOnWire();
    FourBytes(1, 4, 0, 0, 0, 1);
    FourBytes(0, 4, 0, 0, 0, 0);
  }

  lemma {:induction false} BeEncoded(s: seq<Byte>)
    ensures BeBytes(BeValue(s), |s|) == s
  {
    if s != [] {
      var front, last := s[..|s| - 1], s[|s| - 1];
      BeEncoded(front);
      DivModUnique(BeValue(front), last, 256);
      assert front + [last] == s;
    }
  }

  /** Data follow exactly a header with the magic number, no error and the handle asked for. */
  lemma HeaderAcceptedExactly(head: seq<Byte>, handle: nat)
    requires |head| == 16 && handle < U64_LIMIT
    ensures CheckHeader(head, handle) == None <==>
              head == [0x67, 0x44, 0x66, 0x98] + [0, 0, 0, 0] + BeBytes(handle, 8)
  {
    Widths();
    FourBytes(REPLY_MAGIC, 4, 0x67, 0x44, 0x66, 0x98);
    FourBytes(0, 4, 0, 0, 0, 0);
    BeEncoded(head[..4]);
    BeEncoded(head[4..8]);
    BeEncoded(head[8..16]);
    BeRoundTrip(REPLY_MAGIC, 4);
    BeRoundTrip(0, 4);
    BeRoundTrip(handle, 8);
    assert head == head[..4] + head[4..8] + head[8..16];
    if head == [0x67, 0x44, 0x66, 0x98] + [0, 0, 0, 0] + BeBytes(handle, 8) {
      assert head[..4] == [0x67, 0x44, 0x66, 0x98] && head[4..8] == [0, 0, 0, 0] && head[8..16] == BeBytes(handle, 8);
    }
  }

  // ---------------------------------------------------------------- server

  datatype Phase = AwaitFlags | AwaitOption | Transmission | Hungup

  /** What a server does on a complete message: the state it goes to, and its answer. */
  type Behaviour = (Server, seq<Byte>) -> (Server, seq<Byte>)

  /** A server that follows the protocol. */
  function Compliant(exported: seq<Byte>): Behaviour {
    (s: Server, message: seq<Byte>) =>
      if |message| == s.MessageLength() then s.Answer(exported, message) else (s, [])
  }

  /** The server's side of a session; `errors` says with which code each coming read will be answered. */
  datatype Server = Server(phase: Phase, errors: seq<nat>) {
    function MessageLength(): nat {
      match phase
      case AwaitFlags => 4
      case AwaitOption => 16
      case Transmission => 28
      case Hungup => 1
    }

    function NextError(): nat {
      if errors == [] then 0 else errors[0] % U32_LIMIT
    }

    function Rest(): seq<nat> {
      if errors == [] then [] else errors[1..]
    }

    /** The answer to one complete message. */
    function Answer(exported: seq<Byte>, message: seq<Byte>): (Server, seq<Byte>)
      requires |message| == MessageLength()
    {
      match phase
      case AwaitFlags => (this.(phase := AwaitOption), [])
      case AwaitOption =>
        if message == OptionRequest() then (this.(phase := Transmission), ExportReply(|exported|, 1))
        else (this.(phase := Hungup), [])
      case Transmission =>
        (match DecodeRequest(message)
         case None => (this.(phase := Hungup), [])
         case Some(q) =>
           if q.command == CMD_DISC then (this.(phase := Hungup), [])
           else if q.command != CMD_READ || q.offset + q.length > |exported| then (this, ReplyHeader(EINVAL, q.handle))
           else (this.(errors := Rest()), ReadReply(exported, NextError(), q)))
      case Hungup => (this, [])
    }

    /** The answers to everything received, the state reached and the bytes of an unfinished message. */
    function Serve(answer: Behaviour, received: seq<Byte>): (Server, seq<Byte>, seq<Byte>)
      decreases |received|
    {
      var k := MessageLength();
      if |received| < k then (this, [], received)
      else
        var (next, reply) := answer(this, received[..k]);
        var (last, replies, rest) := next.Serve(answer, received[k..]);
        (last, reply + replies, rest)
    }
  }

  // ---------------------------------------------------------------- transport

  datatype NetEvent = Upto(n: nat) | Timeout | Hangup

  predicate Smooth(schedule: seq<NetEvent>) {
    forall i :: 0 <= i < |schedule| ==> schedule[i].Upto?
  }

  /** The connection failed, rather than the server having answered something. */
  predicate InTransit(error: NbdError) {
    error == TimedOut || error == Closed
  }

  /** How many bytes the next call on a connection may move, or how it fails. */
  function NextEvent(schedule: seq<NetEvent>, limit: nat): (r: (seq<NetEvent>, Result<nat, NbdError>))
    requires limit > 0
    ensures r.1.Ok? ==> 0 < r.1.value <= limit
    ensures r.1.Err? ==> InTransit(r.1.error)
    ensures Smooth(schedule) ==> Smooth(r.0) && r.1.Ok?
  {
    if schedule == [] then ([], Ok(limit))
    else
      match schedule[0]
      case Upto(n) => (schedule[1..], Ok(Max(1, Min(n, limit))))
      case Timeout => (schedule[1..], Err(TimedOut))
      case Hangup => (schedule[1..], Err(Closed))
  }

  /**
   * What a connection comes to: everything the server will still send in answer to what it was
   * sent, the start of a message it is still waiting for, and how each coming call is cut short or fails.
   */
  datatype Link = Link(server: Server, incoming: seq<Byte>, part: seq<Byte>, schedule: seq<NetEvent>) {
    /** Nothing is under way in either direction. */
    predicate Aligned() {
      server.phase == Transmission && incoming == [] && part == []
    }

    /** The link after the server has taken up these bytes. */
    function Take(answer: Behaviour, bytes: seq<Byte>): Link {
      Served(server.Serve(answer, part + bytes), incoming, schedule)
    }

    predicate Calm() {
      |part| < server.MessageLength()
    }
  }

  function Served(served: (Server, seq<Byte>, seq<Byte>), incoming: seq<Byte>, schedule: seq<NetEvent>): Link {
    Link(served.0, incoming + served.1, served.2, schedule)
  }

  /** One read: the next bytes, fewer than asked for, or none because nothing more will come. */
  function ReadSome(link: Link, limit: nat): (r: (Link, Result<nat, NbdError>))
    requires limit > 0
    ensures r.1.Ok? ==> 0 < r.1.value <= limit && r.1.value <= |link.incoming|
  {
    var (schedule, upto) := NextEvent(link.schedule, limit);
    if upto.Err? then (link.(schedule := schedule), upto)
    else if link.incoming == [] then
      // The server has closed, or the read waits until its deadline.
      (link.(schedule := schedule), Err(if link.server.phase == Hungup then Closed else TimedOut))
    else
      var got := Min(upto.value, |link.incoming|);
      (link.(incoming := link.incoming[got..], schedule := schedule), Ok(got))
  }

  /** Reading `n` more bytes after `front`; what was read before a failure is lost. */
  function ReceiveOnto(link: Link, n: nat, front: seq<Byte>): (r: (Link, Result<seq<Byte>, NbdError>))
    ensures r.1.Ok? ==> |r.1.value| == |front| + n
    decreases n, |link.incoming|
  {
    if n == 0 then (link, Ok(front))
    else
      var (after, got) := ReadSome(link, n);
      if got.Err? then (after, Err(got.error))
      else ReceiveOnto(after, n - got.value, front + link.incoming[..got.value])
  }

  /** Reading exactly `n` bytes. */
  function Receive(link: Link, n: nat): (r: (Link, Result<seq<Byte>, NbdError>))
    ensures r.1.Ok? ==> |r.1.value| == n
  {
    ReceiveOnto(link, n, [])
  }

  /** Writing all of `bytes`. */
  function Send(answer: Behaviour, link: Link, bytes: seq<Byte>): (Link, Result<(), NbdError>)
    decreases |bytes|, |link.incoming|
  {
    if bytes == [] then (link, Ok(()))
    else
      var (schedule, upto) := NextEvent(link.schedule, |bytes|);
      if upto.Err? then (link.(schedule := schedule), Err(upto.error))
      else Send(answer, link.Take(answer, bytes[..upto.value]).(schedule := schedule), bytes[upto.value..])
  }

  // ---------------------------------------------------------------- serving piece by piece

  /** What is left after serving is the start of a message. */
  lemma {:induction false} ServeRest(server: Server, answer: Behaviour, received: seq<Byte>)
    ensures var (last, _, rest) := server.Serve(answer, received);
            |rest| < last.MessageLength()
    decreases |received|
  {
    var k := server.MessageLength();
    if |received| >= k {
      ServeRest(answer(server, received[..k]).0, answer, received[k..]);
    }
  }

  /** Less than one message is kept for later. */
  lemma ServePart(server: Server, answer: Behaviour, part: seq<Byte>)
    requires |part| < server.MessageLength()
    ensures server.Serve(answer, part) == (server, [], part)
  {
  }

  lemma ServeStep(server: Server, answer: Behaviour, first: seq<Byte>, later: seq<Byte>)
    requires |first| == server.MessageLength()
    ensures var (next, reply) := answer(server, first);
            var (last, replies, rest) := next.Serve(answer, later);
            server.Serve(answer, first + later) == (last, reply + replies, rest)
  {
    assert (first + later)[..|first|] == first && (first + later)[|first|..] == later;
  }

  /** The answers of a server that goes on from another one's. */
  predicate GoesOn(a: (Server, seq<Byte>, seq<Byte>), reply: seq<Byte>, b: (Server, seq<Byte>, seq<Byte>)) {
    a == (b.0, reply + b.1, b.2)
  }

  lemma GoesOnTwice(a: (Server, seq<Byte>, seq<Byte>), reply: seq<Byte>, b: (Server, seq<Byte>, seq<Byte>),
                    replies: seq<Byte>, c: (Server, seq<Byte>, seq<Byte>))
    requires GoesOn(a, reply, b) && GoesOn(b, replies, c)
    ensures GoesOn(a, reply + replies, c)
  {
    assert reply + (replies + c.1) == (reply + replies) + c.1;
  }

  /** Serving what comes in two pieces is serving it in one. */
  lemma {:induction false} ServeAppend(server: Server, answer: Behaviour, a: seq<Byte>, b: seq<Byte>)
    ensures var (middle, replies, rest) := server.Serve(answer, a);
            GoesOn(server.Serve(answer, a + b), replies, middle.Serve(answer, rest + b))
    decreases |a|
  {
    var k := server.MessageLength();
    if |a| < k {
      ServePart(server, answer, a);
      assert [] + server.Serve(answer, a + b).1 == server.Serve(answer, a + b).1;
    } else {
      var first, later := a[..k], a[k..];
      var next := answer(server, first).0;
      assert a == first + later && a + b == first + (later + b);
      ServeStep(server, answer, first, later);
      ServeStep(server, answer, first, later + b);
      ServeAppend(next, answer, later, b);
      var (middle, replies, rest) := next.Serve(answer, later);
      GoesOnTwice(server.Serve(answer, a + b), answer(server, first).1, next.Serve(answer, later + b),
                  replies, middle.Serve(answer, rest + b));
    }
  }

  /** One message to a server that has nothing else to take up. */
  lemma ServeOne(server: Server, answer: Behaviour, message: seq<Byte>)
    requires |message| == server.MessageLength()
    ensures server.Serve(answer, message) ==
            (answer(server, message).0, answer(server, message).1, [])
  {
    var (next, reply) := answer(server, message);
    assert message[..|message|] == message && message[|message|..] == [];
    ServePart(next, answer, []);
    assert reply + [] == reply;
  }

  lemma ServedTwice(a: (Server, seq<Byte>, seq<Byte>), replies: seq<Byte>, b: (Server, seq<Byte>, seq<Byte>),
                    incoming: seq<Byte>, schedule: seq<NetEvent>)
    requires GoesOn(a, replies, b)
    ensures Served(b, incoming + replies, schedule) == Served(a, incoming, schedule)
  {
    assert (incoming + replies) + b.1 == incoming + (replies + b.1);
  }

  lemma TakenInPieces(server: Server, answer: Behaviour, inbox: seq<Byte>, outbox: seq<Byte>, bytes: seq<Byte>,
                      schedule: seq<NetEvent>)
    ensures Served(server.Serve(answer, outbox), inbox, schedule).Take(answer, bytes) ==
            Served(server.Serve(answer, outbox + bytes), inbox, schedule)
  {
    ServeAppend(server, answer, outbox, bytes);
    var (middle, replies, rest) := server.Serve(answer, outbox);
    ServedTwice(server.Serve(answer, outbox + bytes), replies, middle.Serve(answer, rest + bytes), inbox, schedule);
  }

  lemma TakeTwice(link: Link, answer: Behaviour, a: seq<Byte>, b: seq<Byte>)
    ensures link.Take(answer, a).Take(answer, b) == link.Take(answer, a + b)
  {
    TakenInPieces(link.server, answer, link.incoming, link.part + a, b, link.schedule);
    assert (link.part + a) + b == link.part + (a + b);
  }

  lemma TakeNothing(link: Link, answer: Behaviour)
    requires link.Calm()
    ensures link.Take(answer, []) == link
  {
    assert link.part + [] == link.part;
    ServePart(link.server, answer, link.part);
    assert link.incoming + [] == link.incoming;
  }

  lemma TakeCalms(link: Link, answer: Behaviour, bytes: seq<Byte>)
    ensures link.Take(answer, bytes).Calm()
  {
    ServeRest(link.server, answer, link.part + bytes);
  }

  // ---------------------------------------------------------------- what sending and receiving come to

  /** Everything is sent in order, or a proper prefix on failure. */
  lemma {:induction false} SendMeans(answer: Behaviour, link: Link, bytes: seq<Byte>)
    requires link.Calm()
    ensures var (after, r) := Send(answer, link, bytes);
            && after.Calm()
            && (r.Ok? ==> after == link.Take(answer, bytes).(schedule := after.schedule))
            && (r.Err? ==> InTransit(r.error) && exists k: nat :: SentPart(answer, link, bytes, after, k))
            && (Smooth(link.schedule) ==> r.Ok? && Smooth(after.schedule))
    decreases |bytes|
  {
    if bytes == [] {
      TakeNothing(link, answer);
    } else {
      var (schedule, upto) := NextEvent(link.schedule, |bytes|);
      if upto.Err? {
        TakeNothing(link, answer);
        assert SentPart(answer, link, bytes, link.(schedule := schedule), 0);
      } else {
        var n := upto.value;
        var next := link.Take(answer, bytes[..n]).(schedule := schedule);
        TakeCalms(link, answer, bytes[..n]);
        SendMeans(answer, next, bytes[n..]);
        SentOnward(answer, link, schedule, bytes, n);
        var (after, r) := Send(answer, next, bytes[n..]);
        if r.Err? {
          var k: nat :| SentPart(answer, next, bytes[n..], after, k);
          PartOnward(answer, link, schedule, bytes, n, after, k);
        }
      }
    }
  }

  /** The server has taken up the first `k` of the bytes. */
  predicate SentPart(answer: Behaviour, link: Link, bytes: seq<Byte>, after: Link, k: nat) {
    k < |bytes| && after == link.Take(answer, bytes[..k]).(schedule := after.schedule)
  }

  lemma PartOnward(answer: Behaviour, link: Link, schedule: seq<NetEvent>, bytes: seq<Byte>, n: nat, after: Link, k: nat)
    requires n <= |bytes|
    requires SentPart(answer, link.Take(answer, bytes[..n]).(schedule := schedule), bytes[n..], after, k)
    ensures SentPart(answer, link, bytes, after, n + k)
  {
    TakeTwice(link, answer, bytes[..n], bytes[n..][..k]);
    assert bytes[..n] + bytes[n..][..k] == bytes[..n + k];
  }

  lemma SentOnward(answer: Behaviour, link: Link, schedule: seq<NetEvent>, bytes: seq<Byte>, n: nat)
    requires n <= |bytes|
    ensures var next := link.Take(answer, bytes[..n]).(schedule := schedule);
            next.Take(answer, bytes[n..]) == link.Take(answer, bytes).(schedule := schedule)
  {
    TakeTwice(link, answer, bytes[..n], bytes[n..]);
    assert bytes[..n] + bytes[n..] == bytes;
  }

  /** The next `k` bytes are gone, and nothing else has changed. */
  predicate Dropped(link: Link, after: Link, k: nat) {
    k <= |link.incoming| && after == link.(incoming := link.incoming[k..], schedule := after.schedule)
  }

  lemma ReadSomeDrops(link: Link, limit: nat)
    requires limit > 0
    ensures var (next, got) := ReadSome(link, limit);
            && (got.Ok? ==> Dropped(link, next, got.value))
            && (got.Err? ==> InTransit(got.error) && Dropped(link, next, 0))
            && (Smooth(link.schedule) ==> Smooth(next.schedule) && (got.Err? <==> link.incoming == []))
  {
  }

  /** The outcome of reading `n` bytes of which `k` were got: all of them, or fewer and a failure. */
  predicate Drawn(link: Link, n: nat, after: Link, r: Result<seq<Byte>, NbdError>, k: nat) {
    && k <= n && Dropped(link, after, k)
    && (r.Ok? ==> k == n && r.value == link.incoming[..n])
    && (r.Err? ==> k < n && InTransit(r.error))
  }

  /** The same, told of what has been read in front of it. */
  predicate DrawnOnto(link: Link, n: nat, front: seq<Byte>, after: Link, r: Result<seq<Byte>, NbdError>, k: nat) {
    && k <= n && Dropped(link, after, k)
    && (r.Ok? ==> k == n && r.value == front + link.incoming[..n])
    && (r.Err? ==> k < n && InTransit(r.error))
  }

  lemma DrawnOnward(link: Link, n: nat, front: seq<Byte>, next: Link, got: nat, after: Link, r: Result<seq<Byte>, NbdError>,
                    k: nat)
    requires got <= n && Dropped(link, next, got)
    requires DrawnOnto(next, n - got, front + link.incoming[..got], after, r, k)
    ensures DrawnOnto(link, n, front, after, r, got + k)
  {
    DroppedOnward(link, next, after, got, k);
    if r.Ok? {
      assert (front + link.incoming[..got]) + next.incoming[..k] == front + (link.incoming[..got] + next.incoming[..k]);
    }
  }

  lemma {:induction false} OntoDrops(link: Link, n: nat, front: seq<Byte>) returns (k: nat)
    ensures DrawnOnto(link, n, front, ReceiveOnto(link, n, front).0, ReceiveOnto(link, n, front).1, k)
    decreases n
  {
    k := 0;
    if n == 0 {
      assert front + link.incoming[..0] == front;
    } else {
      var (next, got) := ReadSome(link, n);
      ReadSomeDrops(link, n);
      if got.Ok? {
        var more := front + link.incoming[..got.value];
        k := OntoDrops(next, n - got.value, more);
        var (after, r) := ReceiveOnto(next, n - got.value, more);
        DrawnOnward(link, n, front, next, got.value, after, r, k);
        k := got.value + k;
      }
    }
  }

  /** However the stream is cut, its next bytes are read in order; a failure may leave some of them read. */
  lemma ReceiveDrops(link: Link, n: nat) returns (k: nat)
    ensures Drawn(link, n, Receive(link, n).0, Receive(link, n).1, k)
  {
    k := OntoDrops(link, n, []);
    assert n <= |link.incoming| ==> [] + link.incoming[..n] == link.incoming[..n];
  }

  /** On a connection that does not break, a read fails exactly when too few bytes will come, and takes them all. */
  lemma {:induction false} ReceiveSmooth(link: Link, n: nat, front: seq<Byte>)
    requires Smooth(link.schedule)
    ensures var (after, r) := ReceiveOnto(link, n, front);
            Smooth(after.schedule) && (r.Ok? <==> n <= |link.incoming|) && (r.Err? ==> after.incoming == [])
    decreases n
  {
    if n > 0 {
      var (next, got) := ReadSome(link, n);
      ReadSomeDrops(link, n);
      if got.Ok? {
        ReceiveSmooth(next, n - got.value, front + link.incoming[..got.value]);
      }
    }
  }

  lemma ReceiveMeans(link: Link, n: nat)
    ensures var (after, r) := Receive(link, n);
            && (r.Ok? ==> Dropped(link, after, n) && r.value == link.incoming[..n])
            && (r.Err? ==> InTransit(r.error) && exists k: nat :: k < n && Dropped(link, after, k))
            && (Smooth(link.schedule) ==> Smooth(after.schedule) && (r.Ok? <==> n <= |link.incoming|))
            && (Smooth(link.schedule) && r.Err? ==> after.incoming == [])
  {
    var k := ReceiveDrops(link, n);
    if Smooth(link.schedule) {
      ReceiveSmooth(link, n, []);
    }
  }

  lemma DroppedOnward(link: Link, middle: Link, after: Link, a: nat, b: nat)
    requires Dropped(link, middle, a) && Dropped(middle, after, b)
    ensures Dropped(link, after, a + b)
    ensures link.incoming[..a] + middle.incoming[..b] == link.incoming[..a + b]
  {
    assert link.incoming[a..][b..] == link.incoming[a + b..];
  }

  // ---------------------------------------------------------------- the connection

  /** A connection to a server; `schedule` fixes how each call on it is cut short or fails. */
  class Connection {
    /** What the server exports. */
    const exported: seq<Byte>
    /** What the server does on each message. */
    const answer: Behaviour
    var server: Server
    var inbox: seq<Byte>
    var outbox: seq<Byte>
    var schedule: seq<NetEvent>

    constructor (exported: seq<Byte>, serverFlags: nat, errors: seq<nat>, schedule: seq<NetEvent>)
      ensures this.exported == exported && FollowsProtocol()
      ensures AsLink() == Link(Server(AwaitFlags, errors), Banner(serverFlags), [], schedule)
    {
      this.exported := exported;
      answer := Compliant(exported);
      server := Server(AwaitFlags, errors);
      inbox := Banner(serverFlags);
      outbox := [];
      this.schedule := schedule;
      new;
      ServePart(server, answer, []);
      assert inbox + [] == inbox;
    }

    function AsLink(): Link
      reads this
    {
      Served(server.Serve(answer, outbox), inbox, schedule)
    }

    ghost predicate FollowsProtocol() {
      answer == Compliant(exported)
    }

    method Await(limit: nat) returns (r: Result<nat, NbdError>)
      requires limit > 0
      modifies this`schedule
      ensures (schedule, r) == NextEvent(old(schedule), limit)
    {
      if schedule == [] {
        return Ok(limit);
      }
      var event := schedule[0];
      schedule := schedule[1..];
      match event
      case Upto(n) => return Ok(Max(1, Min(n, limit)));
      case Timeout => return Err(TimedOut);
      case Hangup => return Err(Closed);
    }

    /** One read into `buf[lo..]`. */
    method Read(buf: array<Byte>, lo: nat) returns (r: Result<nat, NbdError>)
      requires lo < buf.Length
      modifies this, buf
      ensures (AsLink(), r) == ReadSome(old(AsLink()), buf.Length - lo)
      ensures r.Ok? ==> forall i :: lo <= i < lo + r.value ==> buf[i] == old(AsLink()).incoming[i - lo]
      ensures forall i :: 0 <= i < lo ==> buf[i] == old(buf[i])
    {
      var n := Await(buf.Length - lo);
      if n.Err? {
        return n;
      }
      var (last, replies, rest) := server.Serve(answer, outbox);
      ServeRest(server, answer, outbox);
      ServePart(last, answer, rest);
      server, inbox, outbox := last, inbox + replies, rest;
      assert inbox + [] == inbox;
      if inbox == [] {
        return Err(if server.phase == Hungup then Closed else TimedOut);
      }
      var got := Min(n.value, |inbox|);
      forall i | lo <= i < lo + got {
        buf[i] := inbox[i - lo];
      }
      inbox := inbox[got..];
      assert inbox + [] == inbox;
      return Ok(got);
    }

    /** One write of the first of `bytes`. */
    method Write(bytes: seq<Byte>) returns (r: Result<nat, NbdError>)
      requires bytes != []
      modifies this`schedule, this`outbox
      ensures (schedule, r) == NextEvent(old(schedule), |bytes|)
      ensures AsLink() == (if r.Ok? then old(AsLink()).Take(answer, bytes[..r.value]) else old(AsLink())).(schedule := schedule)
    {
      r := Await(|bytes|);
      if r.Ok? {
        TakenInPieces(server, answer, inbox, outbox, bytes[..r.value], schedule);
        outbox := outbox + bytes[..r.value];
      }
    }
  }

  // ---------------------------------------------------------------- client

  /** What has been read of a buffer, and how much is to come. */
  predicate Halfway(buf: seq<Byte>, lo: nat, front: seq<Byte>, left: nat) {
    lo <= |buf| && front == buf[..lo] && left == |buf| - lo
  }

  /** One read on the way to filling `buf`. */
  method ReadNext(conn: Connection, buf: array<Byte>, lo: nat, ghost front: seq<Byte>, ghost left: nat,
                  ghost end: (Link, Result<seq<Byte>, NbdError>))
    returns (r: Result<nat, NbdError>, ghost front': seq<Byte>, ghost left': nat)
    requires lo < buf.Length && Halfway(buf[..], lo, front, left) && end == ReceiveOnto(conn.AsLink(), left, front)
    modifies conn, buf
    ensures r.Ok? ==> 0 < r.value <= buf.Length - lo && Halfway(buf[..], lo + r.value, front', left')
    ensures r.Ok? ==> end == ReceiveOnto(conn.AsLink(), left', front')
    ensures r.Err? ==> end == (conn.AsLink(), Err(r.error))
  {
    ghost var link := conn.AsLink();
    front', left' := front, left;
    r := conn.Read(buf, lo);
    if r.Ok? {
      front', left' := front + link.incoming[..r.value], left - r.value;
      Filled(buf[..], front, link.incoming, r.value);
    }
  }

  lemma Filled(now: seq<Byte>, front: seq<Byte>, incoming: seq<Byte>, got: nat)
    requires got <= |incoming| && |front| + got <= |now|
    requires forall i :: 0 <= i < |front| ==> now[i] == front[i]
    requires forall i :: |front| <= i < |front| + got ==> now[i] == incoming[i - |front|]
    ensures now[..|front| + got] == front + incoming[..got]
  {
  }

  /** Fills `buf` from the stream, however it is cut. */
  method ReadExactUntil(conn: Connection, buf: array<Byte>) returns (r: Result<(), NbdError>)
    modifies conn, buf
    ensures var (after, data) := Receive(old(conn.AsLink()), buf.Length);
            && conn.AsLink() == after
            && (r.Ok? <==> data.Ok?)
            && (r.Ok? ==> buf[..] == data.value)
            && (r.Err? ==> r.error == data.error)
  {
    ghost var end := Receive(conn.AsLink(), buf.Length);
    ghost var front: seq<Byte>, left: nat := [], buf.Length;
    var read := 0;
    while read < buf.Length
      invariant 0 <= read <= buf.Length && Halfway(buf[..], read, front, left)
      invariant end == ReceiveOnto(conn.AsLink(), left, front)
    {
      var n;
      n, front, left := ReadNext(conn, buf, read, front, left, end);
      if n.Err? {
        return Err(n.error);
      }
      read := read + n.value;
    }
    assert front == buf[..];
    return Ok(());
  }

  /** One write on the way to sending all that is left. */
  method WriteNext(conn: Connection, left: seq<Byte>, ghost end: (Link, Result<(), NbdError>)) returns (r: Result<nat, NbdError>)
    requires left != [] && end == Send(conn.answer, conn.AsLink(), left)
    modifies conn`schedule, conn`outbox
    ensures r.Ok? ==> 0 < r.value <= |left| && end == Send(conn.answer, conn.AsLink(), left[r.value..])
    ensures r.Err? ==> end == (conn.AsLink(), Err(r.error))
  {
    r := conn.Write(left);
  }

  method WriteAllUntil(conn: Connection, bytes: seq<Byte>) returns (r: Result<(), NbdError>)
    modifies conn`schedule, conn`outbox
    ensures (conn.AsLink(), r) == Send(conn.answer, old(conn.AsLink()), bytes)
  {
    ghost var end := Send(conn.answer, conn.AsLink(), bytes);
    var written := 0;
    ghost var left := bytes;
    while written < |bytes|
      invariant 0 <= written <= |bytes| && left == bytes[written..]
      invariant end == Send(conn.answer, conn.AsLink(), left)
    {
      var n := WriteNext(conn, bytes[written..], end);
      if n.Err? {
        return Err(n.error);
      }
      left := left[n.value..];
      written := written + n.value;
    }
    return Ok(());
  }

  // ---------------------------------------------------------------- the handshake

  /** Flags and option are sent back to back, and the size of the export is read from the reply. */
  function Negotiate(answer: Behaviour, link: Link, flags: seq<Byte>, option: seq<Byte>):
    (r: (Link, Result<U64, NbdError>))
  {
    var (flagged, sent) := Send(answer, link, flags);
    if sent.Err? then (flagged, Err(sent.error))
    else
      var (asked, asking) := Send(answer, flagged, option);
      if asking.Err? then (asked, Err(asking.error))
      else
        var (last, reply) := Receive(asked, 134);
        (last, if reply.Err? then Err(reply.error) else Ok(SizeIn(reply.value)))
  }

  function SizeIn(reply: seq<Byte>): U64
    requires |reply| == 134
  {
    Widths();
    BeValue(reply[..8])
  }

  /** The greeting of a server with the newstyle negotiation. */
  predicate Greeting(banner: seq<Byte>) {
    |banner| >= 18 && banner[..8] == NBDMAGIC && BeValue(banner[8..16]) == IHAVEOPT
  }

  function Greet(answer: Behaviour, link: Link, flags: seq<Byte>, option: seq<Byte>): (r: (Link, Result<U64, NbdError>))
  {
    var (greeted, banner) := Receive(link, 18);
    if banner.Err? then (greeted, Err(banner.error))
    else if banner.value[..8] != NBDMAGIC then (greeted, Err(InvalidData))
    else if BeValue(banner.value[8..16]) != IHAVEOPT then (greeted, Err(Unsupported))
    else Negotiate(answer, greeted, flags, option)
  }

  /** A greeting is accepted exactly when it starts with "NBDMAGIC" and "IHAVEOPT"; the flags may be anything. */
  lemma GreetingOnWire(banner: seq<Byte>)
    ensures Greeting(banner) <==>
              && |banner| >= 18
              && banner[..8] == [0x4E, 0x42, 0x44, 0x4D, 0x41, 0x47, 0x49, 0x43]
              && banner[8..16] == [0x49, 0x48, 0x41, 0x56] + [0x45, 0x4F, 0x50, 0x54]
  {
    Widths();
    HaveOptOnWire();
    BeRoundTrip(IHAVEOPT, 8);
    if |banner| >= 18 {
      BeEncoded(banner[8..16]);
    }
  }

  lemma ExportSizeRead(size: nat, flags: nat)
    requires size < U64_LIMIT
    ensures BeValue(ExportReply(size, flags)[..8]) == size
  {
    Widths();
    assert ExportReply(size, flags)[..8] == BeBytes(size, 8);
    BeRoundTrip(size, 8);
  }

  /** The two messages of the negotiation bring the server to transmission. */
  lemma NegotiationServed(link: Link, exported: seq<Byte>, flags: seq<Byte>)
    requires link.server.phase == AwaitFlags && link.part == [] && |flags| == 4
    ensures link.Take(Compliant(exported), flags).Take(Compliant(exported), OptionRequest()) ==
            link.(server := link.server.(phase := Transmission), incoming := link.incoming + ExportReply(|exported|, 1))
  {
    ServeOne(link.server, Compliant(exported), flags);
    assert [] + flags == flags && link.incoming + [] == link.incoming;
    var asked := link.server.(phase := AwaitOption);
    assert link.Take(Compliant(exported), flags) == link.(server := asked);
    ServeOne(asked, Compliant(exported), OptionRequest());
    assert [] + OptionRequest() == OptionRequest();
  }

  lemma TakeLater(link: Link, answer: Behaviour, schedule: seq<NetEvent>, bytes: seq<Byte>)
    ensures link.(schedule := schedule).Take(answer, bytes) == link.Take(answer, bytes).(schedule := schedule)
  {
  }

  /** Two messages sent one after the other. */
  lemma SentTwice(answer: Behaviour, link: Link, a: seq<Byte>, b: seq<Byte>)
    requires link.Calm()
    ensures var (first, sent) := Send(answer, link, a);
            var (second, asking) := Send(answer, first, b);
            && (sent.Err? ==> InTransit(sent.error)) && (asking.Err? ==> InTransit(asking.error))
            && (sent.Ok? && asking.Ok? ==>
                  second == link.Take(answer, a).Take(answer, b).(schedule := second.schedule))
            && (Smooth(link.schedule) ==> sent.Ok? && asking.Ok? && Smooth(second.schedule))
  {
    var (first, sent) := Send(answer, link, a);
    SendMeans(answer, link, a);
    SendMeans(answer, first, b);
    TakeLater(link.Take(answer, a), answer, first.schedule, b);
  }

  /** What is read of an export reply, with nothing ahead of it. */
  lemma SizeRead(asked: Link, exported: seq<Byte>, incoming: seq<Byte>)
    requires asked.incoming == incoming + ExportReply(|exported|, 1) && |exported| < U64_LIMIT
    ensures var (last, reply) := Receive(asked, 134);
            && last == asked.(incoming := last.incoming, schedule := last.schedule)
            && (reply.Err? ==> InTransit(reply.error))
            && (reply.Ok? && incoming == [] ==> SizeIn(reply.value) == |exported| && last.incoming == [])
            && (Smooth(asked.schedule) ==> reply.Ok? && Smooth(last.schedule))
  {
    ReceiveMeans(asked, 134);
    if incoming == [] {
      var reply := ExportReply(|exported|, 1);
      ExportSizeRead(|exported|, 1);
      assert asked.incoming == reply && reply[..134] == reply && reply[134..] == [];
    }
  }

  /** Sent back to back to a server that waits for the client's flags. */
  lemma NegotiateMeans(exported: seq<Byte>, link: Link, flags: seq<Byte>, option: seq<Byte>)
    requires link.server.phase == AwaitFlags && link.part == [] && |flags| == 4 && option == OptionRequest()
    requires |exported| < U64_LIMIT
    ensures var (after, r) := Negotiate(Compliant(exported), link, flags, option);
            && (r.Err? ==> InTransit(r.error))
            && (r.Ok? && link.incoming == [] ==>
                  r.value == |exported| && after.Aligned() && after.server.errors == link.server.errors)
            && (Smooth(link.schedule) ==> r.Ok? && Smooth(after.schedule))
  {
    SentTwice(Compliant(exported), link, flags, option);
    NegotiationServed(link, exported, flags);
    var (flagged, sent) := Send(Compliant(exported), link, flags);
    var (asked, asking) := Send(Compliant(exported), flagged, option);
    if sent.Ok? && asking.Ok? {
      SizeRead(asked, exported, link.incoming);
    }
  }

  /** Which greeting is accepted, and how the others are rejected. */
  lemma GreetingExactly(exported: seq<Byte>, link: Link, flags: seq<Byte>, option: seq<Byte>)
    requires link.server.phase == AwaitFlags && link.part == [] && |flags| == 4 && option == OptionRequest()
    requires |exported| < U64_LIMIT
    ensures var (after, r) := Greet(Compliant(exported), link, flags, option);
            && (r.Ok? ==> Greeting(link.incoming))
            && (r == Err(InvalidData) ==> |link.incoming| >= 18 && link.incoming[..8] != NBDMAGIC)
            && (r == Err(Unsupported) ==>
                  |link.incoming| >= 18 && link.incoming[..8] == NBDMAGIC && !Greeting(link.incoming))
            && (r.Err? ==> r.error in {TimedOut, Closed, InvalidData, Unsupported})
            && (r.Ok? && |link.incoming| == 18 ==>
                  r.value == |exported| && after.Aligned() && after.server.errors == link.server.errors)
            && (Smooth(link.schedule) ==>
                  && Smooth(after.schedule) && (r.Ok? <==> Greeting(link.incoming))
                  && (r.Err? && InTransit(r.error) <==> |link.incoming| < 18))
  {
    var (greeted, banner) := Receive(link, 18);
    BannerMeans(link);
    if banner.Ok? {
      NegotiateMeans(exported, greeted, flags, option);
    }
  }

  /** The first eighteen bytes, and whether they are a greeting. */
  lemma BannerMeans(link: Link)
    ensures var (greeted, banner) := Receive(link, 18);
            && (banner.Ok? ==>
                  && Dropped(link, greeted, 18)
                  && banner.value[..8] == link.incoming[..8] && banner.value[8..16] == link.incoming[8..16])
            && (banner.Err? ==> InTransit(banner.error))
            && (Smooth(link.schedule) ==> Smooth(greeted.schedule) && (banner.Ok? <==> |link.incoming| >= 18))
  {
    ReceiveMeans(link, 18);
    var banner := Receive(link, 18).1;
    if banner.Ok? {
      assert banner.value[..8] == link.incoming[..8] && banner.value[8..16] == link.incoming[8..16];
    }
  }

  /** Opens a session with whoever sent the greeting that is waiting on `conn`. */
  method Handshake(conn: Connection) returns (r: Result<NbdStream, NbdError>)
    modifies conn
    ensures var (after, size) := Greet(conn.answer, old(conn.AsLink()), BeBytes(1, 4), OptionRequest());
            && conn.AsLink() == after
            && (r.Ok? <==> size.Ok?)
            && (r.Ok? ==> fresh(r.value) && r.value.conn == conn && !r.value.disconnected && r.value.exportSize == size.value)
            && (r.Err? ==> r.error == size.error)
  {
    var banner := new Byte[18];
    var got := ReadExactUntil(conn, banner);
    if got.Err? {
      return Err(got.error);
    }
    if banner[..][..8] != NBDMAGIC {
      return Err(InvalidData);
    }
    if BeValue(banner[..][8..16]) != IHAVEOPT {
      return Err(Unsupported);
    }
    var sent := WriteAllUntil(conn, BeBytes(1, 4));
    if sent.Err? {
      return Err(sent.error);
    }
    sent := WriteAllUntil(conn, OptionRequest());
    if sent.Err? {
      return Err(sent.error);
    }
    var reply := new Byte[134];
    got := ReadExactUntil(conn, reply);
    if got.Err? {
      return Err(got.error);
    }
    var stream := new NbdStream(conn, SizeIn(reply[..]));
    return Ok(stream);
  }

  // ---------------------------------------------------------------- one read

  /** What the 32-bit length field of a request holds when `n` bytes are asked for. */
  function LengthField(n: nat): (m: nat)
    ensures m < U32_LIMIT && m <= n
    ensures m == n <==> n < U32_LIMIT
  {
    n % U32_LIMIT
  }

  /** How many bytes of a read lie inside the export. */
  function Clipped(size: nat, offset: nat, len: nat): (n: nat)
    ensures n > 0 <==> len > 0 && offset < size
    ensures n <= len && (n > 0 ==> offset + n <= size)
    ensures n > 0 ==> n == len || offset + n == size
  {
    if offset >= size then 0 else Min(len, size - offset)
  }

  /** The bytes a read is meant to return. */
  function Extract(exported: seq<Byte>, offset: nat, len: nat): (s: seq<Byte>)
    ensures |s| == Clipped(|exported|, offset, len)
  {
    var n := Clipped(|exported|, offset, len);
    if n == 0 then [] else exported[offset..offset + n]
  }

  function RequestFor(id: nat, offset: nat, n: nat): Request {
    Request(CMD_READ, id, offset, LengthField(n))
  }

  /** A message is sent, and its answer read. */
  function Exchange(answer: Behaviour, link: Link, message: seq<Byte>, id: nat, n: nat):
    (r: (Link, Result<seq<Byte>, NbdError>))
    ensures r.1.Ok? ==> |r.1.value| == n
  {
    var (asked, sent) := Send(answer, link, message);
    if sent.Err? then (asked, Err(sent.error)) else ReplyOf(asked, id, n)
  }

  /** The header of the answer is read and checked. */
  function HeaderOf(asked: Link, id: nat): (Link, Result<(), NbdError>) {
    var (headed, header) := Receive(asked, 16);
    if header.Err? then (headed, Err(header.error))
    else
      match CheckHeader(header.value, id)
      case Some(error) => (headed, Err(error))
      case None => (headed, Ok(()))
  }

  /** The header and then `n` bytes of data. */
  function ReplyOf(asked: Link, id: nat, n: nat): (r: (Link, Result<seq<Byte>, NbdError>))
    ensures r.1.Ok? ==> |r.1.value| == n
  {
    var (headed, header) := HeaderOf(asked, id);
    if header.Err? then (headed, Err(header.error)) else Receive(headed, n)
  }

  function ReadOne(answer: Behaviour, size: nat, link: Link, id: nat, offset: nat, len: nat):
    (r: (Link, Result<seq<Byte>, NbdError>))
    ensures r.1.Ok? ==> |r.1.value| == Clipped(size, offset, len)
  {
    var n := Clipped(size, offset, len);
    if n == 0 then (link, Ok([])) else Exchange(answer, link, RequestFor(id, offset, n).Encode(), id, n)
  }

  function NextId(size: nat, id: U64, offset: nat, len: nat): U64 {
    if Clipped(size, offset, len) == 0 then id else (id + 1) % U64_LIMIT
  }

  method ReadHeader(conn: Connection, id: nat) returns (r: Result<(), NbdError>)
    modifies conn
    ensures (conn.AsLink(), r) == HeaderOf(old(conn.AsLink()), id)
  {
    var header := new Byte[16];
    var got := ReadExactUntil(conn, header);
    if got.Err? {
      return Err(got.error);
    }
    var error := CheckHeader(header[..], id);
    return if error.Some? then Err(error.value) else Ok(());
  }

  method ReadReplyOf(conn: Connection, id: nat, n: nat) returns (r: Result<seq<Byte>, NbdError>)
    modifies conn
    ensures (conn.AsLink(), r) == ReplyOf(old(conn.AsLink()), id, n)
  {
    var header := ReadHeader(conn, id);
    if header.Err? {
      return Err(header.error);
    }
    var data := new Byte[n];
    var got := ReadExactUntil(conn, data);
    if got.Err? {
      return Err(got.error);
    }
    return Ok(data[..]);
  }

  class NbdStream {
    const conn: Connection
    const exportSize: U64
    var requestId: U64
    var disconnected: bool

    constructor (conn: Connection, exportSize: U64)
      ensures this.conn == conn && this.exportSize == exportSize && requestId == 1 && !disconnected
    {
      this.conn := conn;
      this.exportSize := exportSize;
      requestId := 1;
      disconnected := false;
    }

    /** The next reply the client will read is the answer to its next request. */
    predicate InStep()
      reads this, conn
    {
      conn.AsLink().Aligned()
    }

    method ReadRange(offset: nat, len: nat) returns (r: Result<seq<Byte>, NbdError>)
      modifies this`requestId, conn
      ensures (conn.AsLink(), r) == ReadOne(conn.answer, exportSize, old(conn.AsLink()), old(requestId), offset, len)
      ensures requestId == NextId(exportSize, old(requestId), offset, len)
    {
      if len == 0 {
        return Ok([]);
      }
      if offset >= exportSize {
        return Ok([]);
      }
      var n := Min(len, exportSize - offset);
      var id := requestId;
      requestId := (requestId + 1) % U64_LIMIT;
      var sent := WriteAllUntil(conn, RequestFor(id, offset, n).Encode());
      if sent.Err? {
        return Err(sent.error);
      }
      r := ReadReplyOf(conn, id, n);
    }

    /** Announces the end of the session once; later calls do nothing. */
    method Disconnect()
      modifies this`disconnected, conn
      ensures disconnected
      ensures conn.AsLink() == if old(disconnected) then old(conn.AsLink())
                               else Send(conn.answer, old(conn.AsLink()), Farewell(requestId)).0
    {
      if disconnected {
        return;
      }
      disconnected := true;
      var sent := WriteAllUntil(conn, Farewell(requestId));
    }
  }

  function Farewell(id: nat): seq<Byte> {
    Request(CMD_DISC, id, 0, 0).Encode()
  }

  lemma FarewellTaken(link: Link, exported: seq<Byte>, q: Request, message: seq<Byte>)
    requires link.Aligned() && q.command == CMD_DISC && |message| == 28 && DecodeRequest(message) == Some(q)
    ensures link.Take(Compliant(exported), message) == link.(server := link.server.(phase := Hungup))
  {
    ServeOne(link.server, Compliant(exported), message);
    assert [] + message == message;
  }

  /** A server that has nothing else to take up hangs up without an answer. */
  lemma DisconnectMeans(exported: seq<Byte>, link: Link, id: U64)
    requires link.Aligned() && Smooth(link.schedule)
    ensures var after := Send(Compliant(exported), link, Farewell(id)).0;
            after.server.phase == Hungup && after.incoming == [] && after.part == []
  {
    SendMeans(Compliant(exported), link, Farewell(id));
    RequestRoundTrip(Request(CMD_DISC, id, 0, 0));
    FarewellTaken(link, exported, Request(CMD_DISC, id, 0, 0), Farewell(id));
  }

  // ---------------------------------------------------------------- what one read comes to

  /**
   * What an exchange yields once the server has taken up the message: the next sixteen bytes,
   * whosever they are, are read as the header, and the `n` after them as the data.
   */
  predicate Answered(taken: Link, id: nat, n: nat, after: Link, r: Result<seq<Byte>, NbdError>) {
    var stream := taken.incoming;
    if |stream| < 16 then RanDry(taken, after, r)
    else
      match CheckHeader(stream[..16], id)
      case Some(error) => r == Err(error) && Dropped(taken, after, 16)
      case None =>
        if |stream| < 16 + n then RanDry(taken, after, r)
        else r == Ok(stream[16..16 + n]) && Dropped(taken, after, 16 + n)
  }

  /** Too few bytes came; all there were have been read. */
  predicate RanDry(taken: Link, after: Link, r: Result<seq<Byte>, NbdError>) {
    r.Err? && InTransit(r.error) && Dropped(taken, after, |taken.incoming|)
  }

  lemma AllDropped(link: Link, after: Link, k: nat)
    requires Dropped(link, after, k) && after.incoming == []
    ensures Dropped(link, after, |link.incoming|)
  {
  }

  /** What the reading half of an exchange comes to, on a link like `taken` but for its schedule. */
  lemma ReplyMeans(taken: Link, asked: Link, id: nat, n: nat)
    requires asked == taken.(schedule := asked.schedule)
    ensures var (after, r) := ReplyOf(asked, id, n);
            && (Answered(taken, id, n, after, r) || (r.Err? && InTransit(r.error)))
            && (Smooth(asked.schedule) ==> Answered(taken, id, n, after, r) && Smooth(after.schedule))
  {
    var (headed, header) := Receive(asked, 16);
    ReceiveMeans(asked, 16);
    HeaderMeans(taken, asked, headed, header);
    if header.Ok? && CheckHeader(header.value, id) == None {
      var (after, data) := Receive(headed, n);
      ReceiveMeans(headed, n);
      DataMeans(taken, headed, after, n, data);
    }
  }

  /** Unless the connection breaks, an exchange is decided by the bytes that are next in the stream. */
  lemma ExchangeMeans(answer: Behaviour, link: Link, message: seq<Byte>, id: nat, n: nat)
    requires link.Calm()
    ensures var (after, r) := Exchange(answer, link, message, id, n);
            var taken := link.Take(answer, message);
            && (Answered(taken, id, n, after, r) || (r.Err? && InTransit(r.error)))
            && (Smooth(link.schedule) ==> Answered(taken, id, n, after, r) && Smooth(after.schedule))
  {
    var (asked, sent) := Send(answer, link, message);
    SendMeans(answer, link, message);
    if sent.Ok? {
      ReplyMeans(link.Take(answer, message), asked, id, n);
    }
  }

  lemma HeaderMeans(taken: Link, asked: Link, headed: Link, header: Result<seq<Byte>, NbdError>)
    requires asked == taken.(schedule := asked.schedule)
    requires header.Ok? ==> Dropped(asked, headed, 16) && header.value == asked.incoming[..16]
    requires header.Err? ==> exists k: nat :: k < 16 && Dropped(asked, headed, k)
    ensures header.Ok? ==> Dropped(taken, headed, 16) && header.value == taken.incoming[..16]
    ensures header.Err? && headed.incoming == [] ==> Dropped(taken, headed, |taken.incoming|)
  {
    if header.Err? && headed.incoming == [] {
      var k: nat :| k < 16 && Dropped(asked, headed, k);
      AllDropped(taken, headed, k);
    }
  }

  lemma DataMeans(taken: Link, headed: Link, after: Link, n: nat, data: Result<seq<Byte>, NbdError>)
    requires Dropped(taken, headed, 16)
    requires data.Ok? ==> Dropped(headed, after, n) && data.value == headed.incoming[..n]
    requires data.Err? ==> exists k: nat :: k < n && Dropped(headed, after, k)
    ensures data.Ok? ==> Dropped(taken, after, 16 + n) && data.value == taken.incoming[16..16 + n]
    ensures data.Err? && after.incoming == [] ==> Dropped(taken, after, |taken.incoming|)
  {
    if data.Ok? {
      DroppedOnward(taken, headed, after, 16, n);
      assert taken.incoming[16..][..n] == taken.incoming[16..16 + n];
    } else if after.incoming == [] {
      var k: nat :| k < n && Dropped(headed, after, k);
      DroppedOnward(taken, headed, after, 16, k);
      AllDropped(taken, after, 16 + k);
    }
  }

  /** What a compliant server answers to a read that lies inside the export. */
  lemma ReadServed(server: Server, exported: seq<Byte>, q: Request, message: seq<Byte>)
    requires server.phase == Transmission && q.command == CMD_READ && q.offset + q.length <= |exported|
    requires |message| == 28 && DecodeRequest(message) == Some(q)
    ensures server.Serve(Compliant(exported), message) ==
            (server.(errors := server.Rest()), ReadReply(exported, server.NextError(), q), [])
  {
    ServeOne(server, Compliant(exported), message);
  }

  /** With every message so far taken up, the reply to a request comes behind what is ahead of it. */
  lemma RequestTaken(link: Link, exported: seq<Byte>, id: U64, offset: nat, n: nat)
    requires link.server.phase == Transmission && link.part == [] && offset + n <= |exported| < U64_LIMIT
    ensures var q := RequestFor(id, offset, n);
            link.Take(Compliant(exported), q.Encode()) ==
            link.(server := link.server.(errors := link.server.Rest()),
                  incoming := link.incoming + ReadReply(exported, link.server.NextError(), q))
  {
    var q := RequestFor(id, offset, n);
    RequestRoundTrip(q);
    assert [] + q.Encode() == q.Encode();
    ReadServed(link.server, exported, q, q.Encode());
  }

  /**
   * A read behind any stale bytes, on a connection that does not break: it succeeds exactly when
   * those bytes and the reply together start with an error-free header of this handle and as many
   * bytes as were asked for, and it returns those bytes, whatever they are.
   */
  lemma ReadBehindExactly(exported: seq<Byte>, link: Link, id: U64, offset: nat, n: nat)
    requires link.server.phase == Transmission && link.part == [] && Smooth(link.schedule)
    requires 0 < n && offset + n <= |exported| < U64_LIMIT
    ensures var r := ReadOne(Compliant(exported), |exported|, link, id, offset, n).1;
            var stream := link.incoming + ReadReply(exported, link.server.NextError(), RequestFor(id, offset, n));
            && (r.Ok? <==> |stream| >= 16 + n && CheckHeader(stream[..16], id) == None)
            && (r.Ok? ==> r.value == stream[16..16 + n])
  {
    RequestTaken(link, exported, id, offset, n);
    ExchangeMeans(Compliant(exported), link, RequestFor(id, offset, n).Encode(), id, n);
  }

  /** A late reply to an earlier request, when it is ahead whole, is refused: its handle is not the one expected. */
  lemma LateReplyIsRefused(exported: seq<Byte>, link: Link, id: U64, offset: nat, n: nat, code: nat, handle: nat,
                           data: seq<Byte>)
    requires link.server.phase == Transmission && link.part == [] && Smooth(link.schedule)
    requires 0 < n && offset + n <= |exported| < U64_LIMIT
    requires code < U32_LIMIT && handle < U64_LIMIT && handle != id && link.incoming == ReplyHeader(code, handle) + data
    ensures ReadOne(Compliant(exported), |exported|, link, id, offset, n).1 == Err(if code == 0 then InvalidData else ServerError(code))
  {
    RequestTaken(link, exported, id, offset, n);
    ExchangeMeans(Compliant(exported), link, RequestFor(id, offset, n).Encode(), id, n);
    var stream := link.incoming + ReadReply(exported, link.server.NextError(), RequestFor(id, offset, n));
    assert stream[..16] == ReplyHeader(code, handle);
    ReplyHeaderFields(code, handle);
  }

  /** The bytes of a reply that comes first in the stream. */
  lemma ReplyFirst(exported: seq<Byte>, code: nat, id: U64, offset: nat, n: nat)
    requires offset + n <= |exported| && code < U32_LIMIT
    ensures var s := ReadReply(exported, code, RequestFor(id, offset, n));
            && |s| == 16 + (if code == 0 then LengthField(n) else 0)
            && CheckHeader(s[..16], id) == (if code == 0 then None else Some(ServerError(code)))
            && (code == 0 ==> s[16..] == exported[offset..offset + LengthField(n)])
  {
    ReadReplyParts(exported, code, RequestFor(id, offset, n));
  }

  /** What a client in step gets to its request when the server reports this code. */
  predicate Replied(exported: seq<Byte>, code: nat, offset: nat, n: nat, r: Result<seq<Byte>, NbdError>)
    requires offset + n <= |exported|
  {
    if code != 0 then r == Err(ServerError(code))
    else if n < U32_LIMIT then r == Ok(exported[offset..offset + n])
    else r.Err? && InTransit(r.error)
  }

  lemma AnsweredInStep(exported: seq<Byte>, taken: Link, code: nat, id: U64, offset: nat, n: nat, after: Link,
                       r: Result<seq<Byte>, NbdError>)
    requires offset + n <= |exported| && code < U32_LIMIT && Answered(taken, id, n, after, r)
    requires taken.incoming == ReadReply(exported, code, RequestFor(id, offset, n))
    ensures Replied(exported, code, offset, n, r) && after.incoming == []
    ensures after.server == taken.server && after.part == taken.part
  {
    ReplyFirst(exported, code, id, offset, n);
    var stream := taken.incoming;
    assert stream[|stream|..] == [];
    if code == 0 && n < U32_LIMIT {
      assert stream[16..16 + n] == stream[16..] == exported[offset..offset + n];
    }
  }

  /**
   * A read by a client in step. Unless the connection breaks, it gets the export's bytes or the
   * server's error and stays in step; on a connection that does not break it gets the bytes exactly
   * when the server reports no error and the length fits the request.
   */
  lemma ReadInStep(exported: seq<Byte>, link: Link, id: U64, offset: nat, len: nat)
    requires link.Aligned() && |exported| < U64_LIMIT
    ensures var (after, r) := ReadOne(Compliant(exported), |exported|, link, id, offset, len);
            var n, code := Clipped(|exported|, offset, len), link.server.NextError();
            if n == 0 then r == Ok([]) && after == link
            else
              && ((r.Err? && InTransit(r.error)) || Replied(exported, code, offset, n, r))
              && (Smooth(link.schedule) ==> Smooth(after.schedule) && Replied(exported, code, offset, n, r))
              && (Smooth(link.schedule) || !(r.Err? && InTransit(r.error)) ==>
                    after.Aligned() && after.server.errors == link.server.Rest())
  {
    var n := Clipped(|exported|, offset, len);
    if n > 0 {
      var message := RequestFor(id, offset, n).Encode();
      RequestTaken(link, exported, id, offset, n);
      ExchangeMeans(Compliant(exported), link, message, id, n);
      var taken := link.Take(Compliant(exported), message);
      var (after, r) := Exchange(Compliant(exported), link, message, id, n);
      assert taken.incoming == ReadReply(exported, link.server.NextError(), RequestFor(id, offset, n));
      if Answered(taken, id, n, after, r) {
        AnsweredInStep(exported, taken, link.server.NextError(), id, offset, n, after, r);
      }
    }
  }

  /** A client in step is never given bytes other than the export's. */
  lemma NeverWrongInStep(exported: seq<Byte>, link: Link, id: U64, offset: nat, len: nat)
    requires link.Aligned() && |exported| < U64_LIMIT
    ensures var (after, r) := ReadOne(Compliant(exported), |exported|, link, id, offset, len);
            r.Ok? ==> r.value == Extract(exported, offset, len) && after.Aligned()
  {
    ReadInStep(exported, link, id, offset, len);
  }

  // ---------------------------------------------------------------- out of step

  /** An export that holds what looks like the reply to the second request. */
  function Misleading(): (s: seq<Byte>)
    ensures |s| == 18 && s[0] == 0
  {
    [0] + ReplyHeader(0, 2) + [7]
  }

  lemma SentAtOnce(answer: Behaviour, link: Link, bytes: seq<Byte>)
    requires link.schedule != [] && link.schedule[0] == Upto(|bytes|) && bytes != []
    ensures Send(answer, link, bytes) == (link.Take(answer, bytes).(schedule := link.schedule[1..]), Ok(()))
  {
    assert bytes[..|bytes|] == bytes && bytes[|bytes|..] == [];
  }

  lemma ReceivedAtOnce(link: Link, n: nat)
    requires 0 < n <= |link.incoming| && link.schedule != [] && link.schedule[0] == Upto(n)
    ensures Receive(link, n) ==
            (link.(incoming := link.incoming[n..], schedule := link.schedule[1..]), Ok(link.incoming[..n]))
  {
    var front := [] + link.incoming[..n];
    assert front == link.incoming[..n];
    var after := link.(incoming := link.incoming[n..], schedule := link.schedule[1..]);
    assert ReadSome(link, n) == (after, Ok(n));
    assert ReceiveOnto(after, 0, front) == (after, Ok(front));
  }

  lemma ReceivedOne(link: Link, n: nat)
    requires n > 1 && link.incoming != [] && |link.schedule| > 1
    requires link.schedule[0] == Upto(1) && link.schedule[1] == Timeout
    ensures Receive(link, n) ==
            (link.(incoming := link.incoming[1..], schedule := link.schedule[2..]), Err(TimedOut))
  {
    var next := link.(incoming := link.incoming[1..], schedule := link.schedule[1..]);
    var front := [] + link.incoming[..1];
    assert ReadSome(link, n) == (next, Ok(1));
    assert next.schedule[0] == Timeout && link.schedule[1..][1..] == link.schedule[2..];
    assert ReceiveOnto(next, n - 1, front) == (next.(schedule := link.schedule[2..]), Err(TimedOut));
  }

  /** The request goes out and the header comes in at once; then one byte of data, and no more in time. */
  predicate CutShort(schedule: seq<NetEvent>, length: nat) {
    |schedule| == 4 && schedule[0] == Upto(length) && schedule[1] == Upto(16) && schedule[2] == Upto(1) && schedule[3] == Timeout
  }

  lemma TimesOut(answer: Behaviour, link: Link, message: seq<Byte>, id: nat, n: nat)
    requires message != [] && CutShort(link.schedule, |message|) && n > 1
    requires var reply := link.Take(answer, message).incoming;
             |reply| >= 17 && CheckHeader(reply[..16], id) == None
    ensures var taken := link.Take(answer, message);
            Exchange(answer, link, message, id, n) ==
            (taken.(incoming := taken.incoming[17..], schedule := []), Err(TimedOut))
  {
    var taken := link.Take(answer, message);
    SentAtOnce(answer, link, message);
    var asked := taken.(schedule := link.schedule[1..]);
    ReceivedAtOnce(asked, 16);
    var headed := asked.(incoming := taken.incoming[16..], schedule := link.schedule[1..][1..]);
    ReceivedOne(headed, n);
    assert taken.incoming[16..][1..] == taken.incoming[17..] && headed.schedule[2..] == [];
  }

  lemma MisleadingTail(exported: seq<Byte>, header: seq<Byte>, reply: seq<Byte>)
    requires exported == [0] + header + [7] && |header| == 16 && |reply| >= 17 && reply[16..] == exported
    ensures |reply| == 34 && reply[17..] == header + [7]
  {
    assert reply[17..] == reply[16..][1..];
  }

  lemma MisleadingReply(exported: seq<Byte>)
    requires exported == Misleading()
    ensures var reply := ReadReply(exported, 0, RequestFor(1, 0, 18));
            |reply| == 34 && CheckHeader(reply[..16], 1) == None && reply[17..] == ReplyHeader(0, 2) + [7]
  {
    var reply := ReadReply(exported, 0, RequestFor(1, 0, 18));
    ReplyFirst(exported, 0, 1, 0, 18);
    assert exported[0..18] == exported;
    MisleadingTail(exported, ReplyHeader(0, 2), reply);
  }

  /** The first read times out after the header and one byte of the data. */
  lemma LeftBehind(exported: seq<Byte>, link: Link)
    requires exported == Misleading() && link.Aligned() && link.server.NextError() == 0 && CutShort(link.schedule, 28)
    ensures var (after, r) := ReadOne(Compliant(exported), 18, link, 1, 0, 18);
            && r == Err(TimedOut) && after.incoming == ReplyHeader(0, 2) + [7] && after.schedule == []
            && after.server == link.server.(errors := link.server.Rest()) && after.part == []
  {
    var q := RequestFor(1, 0, 18);
    RequestTaken(link, exported, 1, 0, 18);
    assert [] + ReadReply(exported, 0, q) == ReadReply(exported, 0, q);
    MisleadingReply(exported);
    TimesOut(Compliant(exported), link, q.Encode(), 1, 18);
  }

  /**
   * A client that goes on after a failed read can be given bytes that are not where it asked: here
   * the rest of the first reply passes for the second one.
   */
  lemma StaleBytesAreTaken(exported: seq<Byte>, link: Link)
    requires exported == Misleading() && CutShort(link.schedule, 28)
    requires link.Aligned() && link.server.errors == []
    ensures var (after, first) := ReadOne(Compliant(exported), |exported|, link, 1, 0, 18);
            var second := ReadOne(Compliant(exported), |exported|, after, 2, 0, 1).1;
            first == Err(TimedOut) && second == Ok([7]) && exported[0] == 0
  {
    LeftBehind(exported, link);
    var after := ReadOne(Compliant(exported), 18, link, 1, 0, 18).0;
    ReadBehindExactly(exported, after, 2, 0, 1);
    MisleadingStream(after.incoming, ReadReply(exported, 0, RequestFor(2, 0, 1)));
  }

  lemma MisleadingStream(ahead: seq<Byte>, reply: seq<Byte>)
    requires ahead == ReplyHeader(0, 2) + [7]
    ensures var stream := ahead + reply;
            |stream| >= 17 && CheckHeader(stream[..16], 2) == None && stream[16..17] == [7]
  {
    var stream := ahead + reply;
    assert stream[..16] == ReplyHeader(0, 2);
    ReplyHeaderFields(0, 2);
  }

  // ---------------------------------------------------------------- runs of reads

  datatype ReadCall = ReadCall(offset: nat, len: nat)

  /** The reply one read is meant to get from a server that answers with `errors`. */
  function ReplyTo(exported: seq<Byte>, errors: seq<nat>, call: ReadCall): Result<seq<Byte>, NbdError> {
    var data := Extract(exported, call.offset, call.len);
    var code := Server(Transmission, errors).NextError();
    if data == [] || code == 0 then Ok(data) else Err(ServerError(code))
  }

  /** The codes left for later reads: a read that asks for nothing is not sent. */
  function ErrorsAfter(exported: seq<Byte>, errors: seq<nat>, call: ReadCall): seq<nat> {
    if Extract(exported, call.offset, call.len) == [] then errors else Server(Transmission, errors).Rest()
  }

  /** The replies a run of reads is meant to get. */
  function Replies(exported: seq<Byte>, errors: seq<nat>, calls: seq<ReadCall>):
    (r: seq<Result<seq<Byte>, NbdError>>)
    ensures |r| == |calls|
    decreases |calls|
  {
    if calls == [] then []
    else [ReplyTo(exported, errors, calls[0])]
         + Replies(exported, ErrorsAfter(exported, errors, calls[0]), calls[1..])
  }

  /** The client between two reads. */
  datatype Client = Client(link: Link, id: U64)

  /** One read by a client of this export. */
  function Reading(answer: Behaviour, size: U64): (Client, ReadCall) -> (Client, Result<seq<Byte>, NbdError>) {
    (c: Client, call: ReadCall) =>
      var (after, r) := ReadOne(answer, size, c.link, c.id, call.offset, call.len);
      (Client(after, NextId(size, c.id, call.offset, call.len)), r)
  }

  /** The replies a run of reads gets. */
  function Session<S>(read: (S, ReadCall) -> (S, Result<seq<Byte>, NbdError>), c: S, calls: seq<ReadCall>):
    (r: seq<Result<seq<Byte>, NbdError>>)
    ensures |r| == |calls|
    decreases |calls|
  {
    if calls == [] then []
    else
      var (after, r) := read(c, calls[0]);
      [r] + Session(read, after, calls[1..])
  }

  /** The handle of the next request after some reads, whatever becomes of them. */
  function IdAfter(size: U64, id: U64, calls: seq<ReadCall>): U64
    decreases |calls|
  {
    if calls == [] then id else IdAfter(size, NextId(size, id, calls[0].offset, calls[0].len), calls[1..])
  }

  /** How many of the reads ask the server for something. */
  function Requests(size: U64, calls: seq<ReadCall>): nat {
    if calls == [] then 0 else One(calls[0].len > 0 && calls[0].offset < size) + Requests(size, calls[1..])
  }

  lemma AddedModulo(id: nat, n: nat, k: nat, m: nat)
    requires 0 < m
    ensures ((id + n) % m + k) % m == (id + (n + k)) % m
  {
    var q, r := (id + n) / m, (id + n) % m;
    var q', r' := (r + k) / m, (r + k) % m;
    assert id + (n + k) == (q + q') * m + r';
    DivModUnique(q + q', r', m);
  }

  lemma NotBack(id: nat, k: nat, m: nat)
    requires id < m && 0 < k < m
    ensures (id + k) % m != id
  {
    if id + k < m {
      DivModUnique(0, id + k, m);
    } else {
      DivModUnique(1, id + k - m, m);
    }
  }

  /** Each request gets the next handle, also after a failure. */
  lemma {:induction false} HandlesAdvance(size: U64, id: U64, calls: seq<ReadCall>)
    ensures IdAfter(size, id, calls) == (id + Requests(size, calls)) % U64_LIMIT
    decreases |calls|
  {
    if calls != [] {
      var sent := One(calls[0].len > 0 && calls[0].offset < size);
      var next := NextId(size, id, calls[0].offset, calls[0].len);
      assert next == (id + sent) % U64_LIMIT;
      HandlesAdvance(size, next, calls[1..]);
      AddedModulo(id, sent, Requests(size, calls[1..]), U64_LIMIT);
    }
  }

  /** So none comes twice among fewer than 2^64 requests, and no late reply bears the handle of a new one. */
  lemma HandlesDiffer(size: U64, id: U64, calls: seq<ReadCall>)
    requires 0 < Requests(size, calls) < 0x1_0000_0000_0000_0000
    ensures IdAfter(size, id, calls) != id
  {
    HandlesAdvance(size, id, calls);
    NotBack(id, Requests(size, calls), U64_LIMIT);
  }

  ghost function ClientOf(stream: NbdStream): Client
    reads stream, stream.conn
  {
    Client(stream.conn.AsLink(), stream.requestId)
  }

  method PerformRead(stream: NbdStream, call: ReadCall) returns (r: Result<seq<Byte>, NbdError>)
    modifies stream`requestId, stream.conn
    ensures (ClientOf(stream), r) == Reading(stream.conn.answer, stream.exportSize)(old(ClientOf(stream)), call)
  {
    r := stream.ReadRange(call.offset, call.len);
  }

  /** Performs reads one after another, whatever becomes of them. */
  method ReadAll(stream: NbdStream, calls: seq<ReadCall>) returns (replies: seq<Result<seq<Byte>, NbdError>>)
    modifies stream`requestId, stream.conn
    ensures replies == Session(Reading(stream.conn.answer, stream.exportSize), old(ClientOf(stream)), calls)
    ensures stream.requestId == IdAfter(stream.exportSize, old(stream.requestId), calls)
  {
    ghost var read := Reading(stream.conn.answer, stream.exportSize);
    ghost var all := Session(read, ClientOf(stream), calls);
    ghost var left := calls;
    replies := [];
    for i := 0 to |calls|
      invariant left == calls[i..] && all == replies + Session(read, ClientOf(stream), left)
      invariant IdAfter(stream.exportSize, stream.requestId, left) == IdAfter(stream.exportSize, old(stream.requestId), calls)
    {
      ghost var before := replies;
      var r := PerformRead(stream, calls[i]);
      replies := replies + [r];
      left := left[1..];
      Shifted(before, r, Session(read, ClientOf(stream), left));
    }
  }

  lemma Shifted<T>(front: seq<T>, x: T, back: seq<T>)
    ensures front + ([x] + back) == (front + [x]) + back
  {
  }

  predicate Broken(r: Result<seq<Byte>, NbdError>) {
    r.Err? && InTransit(r.error)
  }

  /** Every request length can be written in the 32 bits the protocol has for it. */
  predicate LengthFits(exported: seq<Byte>, call: ReadCall) {
    Clipped(|exported|, call.offset, call.len) < U32_LIMIT
  }

  /** In states that are fine for `errors`, reads get the intended replies and stay fine, unless they break. */
  ghost predicate ReadsRight<S(!new)>(read: (S, ReadCall) -> (S, Result<seq<Byte>, NbdError>), fine: (S, seq<nat>) -> bool,
                                      exported: seq<Byte>) {
    forall c, errors, call {:trigger fine(c, errors), read(c, call)} ::
      fine(c, errors) && !Broken(read(c, call).1) ==>
        read(c, call).1 == ReplyTo(exported, errors, call) && fine(read(c, call).0, ErrorsAfter(exported, errors, call))
  }

  predicate NoneBroken(replies: seq<Result<seq<Byte>, NbdError>>, k: nat)
    requires k <= |replies|
  {
    forall i :: 0 <= i < k ==> !Broken(replies[i])
  }

  lemma OneLess(all: seq<Result<seq<Byte>, NbdError>>, r: Result<seq<Byte>, NbdError>, rest: seq<Result<seq<Byte>, NbdError>>,
                k: nat)
    requires all == [r] + rest && 0 < k <= |all| && NoneBroken(all, k)
    ensures !Broken(r) && NoneBroken(rest, k - 1)
  {
    assert all[0] == r;
    assert forall i :: 0 <= i < k - 1 ==> rest[i] == all[i + 1];
  }

  lemma OneMore<T>(x: T, a: seq<T>, b: seq<T>, k: nat)
    requires 0 < k <= |a| + 1 && |a| == |b| && a[..k - 1] == b[..k - 1]
    ensures ([x] + a)[..k] == ([x] + b)[..k]
  {
    assert ([x] + a)[..k] == [x] + a[..k - 1] && ([x] + b)[..k] == [x] + b[..k - 1];
  }

  lemma {:induction false} UntilBroken<S(!new)>(read: (S, ReadCall) -> (S, Result<seq<Byte>, NbdError>),
                                                fine: (S, seq<nat>) -> bool, exported: seq<Byte>, c: S, errors: seq<nat>,
                                                calls: seq<ReadCall>, k: nat)
    requires ReadsRight(read, fine, exported) && fine(c, errors)
    requires k <= |calls| && NoneBroken(Session(read, c, calls), k)
    ensures Session(read, c, calls)[..k] == Replies(exported, errors, calls)[..k]
    decreases |calls|
  {
    if k > 0 {
      var (after, r) := read(c, calls[0]);
      var left := ErrorsAfter(exported, errors, calls[0]);
      OneLess(Session(read, c, calls), r, Session(read, after, calls[1..]), k);
      assert fine(c, errors) && fine(after, left);
      UntilBroken(read, fine, exported, after, left, calls[1..], k - 1);
      OneMore(r, Session(read, after, calls[1..]), Replies(exported, left, calls[1..]), k);
    }
  }

  /** The client is in step with a server that will report these codes. */
  predicate InStepWith(c: Client, errors: seq<nat>) {
    c.link.Aligned() && c.link.server.errors == errors
  }

  /** One read of a client in step gets the intended reply, unless the connection breaks. */
  lemma CallInStep(exported: seq<Byte>, c: Client, call: ReadCall)
    requires c.link.Aligned() && |exported| < U64_LIMIT
    ensures var (after, r) := Reading(Compliant(exported), |exported|)(c, call);
            && (!Broken(r) ==>
                  && r == ReplyTo(exported, c.link.server.errors, call)
                  && InStepWith(after, ErrorsAfter(exported, c.link.server.errors, call)))
            && (Smooth(c.link.schedule) ==> Smooth(after.link.schedule))
            && (Smooth(c.link.schedule) && LengthFits(exported, call) ==> !Broken(r))
  {
    ReadInStep(exported, c.link, c.id, call.offset, call.len);
    assert c.link.server == Server(Transmission, c.link.server.errors);
  }

  lemma RightOnce(exported: seq<Byte>, c: Client, errors: seq<nat>, call: ReadCall)
    requires InStepWith(c, errors) && |exported| < U64_LIMIT
    ensures var (after, r) := Reading(Compliant(exported), |exported|)(c, call);
            !Broken(r) ==> r == ReplyTo(exported, errors, call) && InStepWith(after, ErrorsAfter(exported, errors, call))
  {
    CallInStep(exported, c, call);
  }

  lemma ReadingRight(exported: seq<Byte>)
    requires |exported| < U64_LIMIT
    ensures ReadsRight(Reading(Compliant(exported), |exported|), InStepWith, exported)
  {
    forall c: Client, errors, call | InStepWith(c, errors)
      ensures var (after, r) := Reading(Compliant(exported), |exported|)(c, call);
              !Broken(r) ==> r == ReplyTo(exported, errors, call) && InStepWith(after, ErrorsAfter(exported, errors, call))
    {
      RightOnce(exported, c, errors, call);
    }
  }

  /** Every run of a client in step gets the intended replies up to the first one that breaks in transit. */
  lemma SessionUntilBroken(exported: seq<Byte>, c: Client, calls: seq<ReadCall>, k: nat)
    requires c.link.Aligned() && |exported| < U64_LIMIT && k <= |calls|
    requires NoneBroken(Session(Reading(Compliant(exported), |exported|), c, calls), k)
    ensures Session(Reading(Compliant(exported), |exported|), c, calls)[..k] == Replies(exported, c.link.server.errors, calls)[..k]
  {
    ReadingRight(exported);
    UntilBroken(Reading(Compliant(exported), |exported|), InStepWith, exported, c, c.link.server.errors, calls, k);
  }

  /** On a connection that does not break, with lengths that fit, it gets them all. */
  lemma {:induction false} SmoothSession(exported: seq<Byte>, c: Client, calls: seq<ReadCall>)
    requires c.link.Aligned() && Smooth(c.link.schedule) && |exported| < U64_LIMIT
    requires forall i :: 0 <= i < |calls| ==> LengthFits(exported, calls[i])
    ensures Session(Reading(Compliant(exported), |exported|), c, calls) == Replies(exported, c.link.server.errors, calls)
    decreases |calls|
  {
    if calls != [] {
      CallInStep(exported, c, calls[0]);
      SmoothSession(exported, Reading(Compliant(exported), |exported|)(c, calls[0]).0, calls[1..]);
    }
  }
}
