/** The command-line client (src/Client.java): `main` turns the arguments into a plan of
    single-request connections, and `running` builds each request, frames it, and checks
    the reply. The socket is replaced by the bytes sent and the bytes received. */
module Client {
  import opened Common
  import opened Messages
  import opened Codec
  import Server

  /** The key and value a call of `running` is given (`arr[0]`, `arr[1]`); either may be null. */
  datatype Pair = Pair(key: Option<Bytes>, val: Option<Bytes>)

  /** The single space the client sends where a field carries nothing. */
  const SPACE: Bytes := Lit(" ")

  /** Why one call of `running` did not deliver a reply value. */
  datatype Failure =
    | Refused(e: MessageError)       // the Message constructor refused the operation name
    | Unencodable(c: CodecError)     // toBinary threw
    | EndOfStream                    // readInt or readFully ran out of input
    | NegativeLength                 // `new byte[length]` with a negative length
    | Undecodable(d: CodecError)     // toMsg threw
    | NotAResponse                   // the "Error response!" exception

  /** The request message: always a request and never a response; a get carries its key and
      a space, a set its key and value, stats and exit a space in both fields. */
  function BuildRequest(op: string, pair: Pair): (r: Result<Message, MessageError>)
    ensures r.Ok? <==> IsOpName(op)
    ensures r.Ok? ==> r.value.request && !r.value.response && r.value.op == op
    ensures r.Ok? && op == "get" ==> r.value.key == pair.key && r.value.val == Some(SPACE)
    ensures r.Ok? && op == "set" ==> r.value.key == pair.key && r.value.val == pair.val
    ensures r.Ok? && op in {"stats", "exit"} ==> r.value.key == Some(SPACE) && r.value.val == Some(SPACE)
  {
    var m :- New(true, false, op);
    if op == "get" then Ok(SetVal(SetKey(m, pair.key), Some(SPACE)))
    else if op == "set" then Ok(SetVal(SetKey(m, pair.key), pair.val))
    else Ok(SetVal(SetKey(m, Some(SPACE)), Some(SPACE)))
  }

  /** The bytes written to the socket: the binary-mode byte -1, the payload length cast to a
      Java byte, then the payload. */
  function Frame(payload: Bytes): (f: Bytes)
    ensures |f| == 2 + |payload| && f[0] == 0xFF && f[2..] == payload
    ensures f[1] == |payload| % 256
  {
    [0xFF, LowByte(|payload|)] + payload
  }

  /** The request half of `running`: build the message, encode it, frame it. */
  function Send(op: string, pair: Pair): (r: Result<Bytes, Failure>)
    ensures !IsOpName(op) ==> r == Err(Refused(IllegalOperation))
    ensures (IsOpName(op) && (op == "get" || op == "set" ==> Encodable(pair.key))
             && (op == "set" ==> Encodable(pair.val))) ==> r.Ok?
    ensures r.Ok? ==> IsOpName(op) && |r.value| >= 8 && r.value[0] == 0xFF
    ensures r.Ok? ==> Decode(r.value[2..]) == Ok(BuildRequest(op, pair).value)
    ensures r.Ok? ==> r.value == Frame(r.value[2..]) && Encode(BuildRequest(op, pair).value) == Ok(r.value[2..])
  {
    var m :- (match BuildRequest(op, pair) case Ok(m) => Ok(m) case Err(e) => Err(Refused(e)));
    match Encode(m)
    case Err(c) => Err(Unencodable(c))
    case Ok(p) =>
      RoundTrip(m, []);
      assert p + [] == p;
      Ok(Frame(p))
  }

  /** The reply half of `running`: a four-byte signed length, that many bytes, decoded; the
      value is handed on only when the response flag is set. */
  function ReadReply(input: Bytes): (r: Result<Option<Bytes>, Failure>)
    ensures |input| < 4 ==> r == Err(EndOfStream)
    ensures |input| >= 4 && input[0] >= 0x80 ==> r == Err(NegativeLength)
    ensures r.Ok? ==>
      && |input| >= 4 && 0 <= ReadI32(input, 0) <= |input| - 4
      && var m := Decode(input[4..4 + ReadI32(input, 0)]);
      && m.Ok? && m.value.response && r.value == m.value.val
    ensures |input| >= 4 && 0 <= ReadI32(input, 0) <= |input| - 4 ==>
      var m := Decode(input[4..4 + ReadI32(input, 0)]);
      m.Ok? && !m.value.response ==> r == Err(NotAResponse)
    ensures |input| >= 4 && 0 <= ReadI32(input, 0) <= |input| - 4 ==>
      var m := Decode(input[4..4 + ReadI32(input, 0)]);
      && (m.Ok? && m.value.response ==> r == Ok(m.value.val))
      && (m.Err? ==> r == Err(Undecodable(m.error)))
    ensures |input| >= 4 && ReadI32(input, 0) > |input| - 4 ==> r == Err(EndOfStream)
  {
    if |input| < 4 then Err(EndOfStream)
    else
      var length := ReadI32(input, 0);
      if length < 0 then Err(NegativeLength)
      else if |input| - 4 < length then Err(EndOfStream)
      else
        match Decode(input[4..4 + length])
        case Err(d) => Err(Undecodable(d))
        case Ok(m) => if IsResponse(m) then Ok(GetVal(m)) else Err(NotAResponse)
  }

  /** The length byte of a frame, read back by the server as a signed byte: a payload of at
      most 127 bytes arrives whole; one whose length ends in a byte of 128 or more is refused
      as a negative length; a longer one whose low byte is below 128 arrives cut short to
      that many bytes. */
  lemma FrameLengthSurvives(p: Bytes, rest: Bytes)
    ensures |p| <= 127 ==> Server.ReadPayload(Frame(p)[1..] + rest) == Ok(p)
    ensures |p| % 256 >= 128 ==> Server.ReadPayload(Frame(p)[1..] + rest) == Err(Server.NegativeLength)
    ensures |p| >= 256 && |p| % 256 < 128 ==> Server.ReadPayload(Frame(p)[1..] + rest) == Ok(p[..|p| % 256])
  {
    var input := Frame(p)[1..] + rest;
    assert input[0] == |p| % 256;
    assert input[1..] == p + rest;
    assert (p + rest)[..|p|] == p;
    var n := |p| % 256;
    if n < 128 {
      assert input[1..1 + n] == p[..n];
    }
  }

  /** The server decodes exactly the request the client built, whatever follows the frame,
      as long as the payload fits the signed length byte. */
  lemma ServerReceivesRequest(op: string, pair: Pair, rest: Bytes)
    requires Send(op, pair).Ok? && |Send(op, pair).value| <= 129
    ensures Server.ReadPayload(Send(op, pair).value[1..] + rest).Ok?
    ensures Decode(Server.ReadPayload(Send(op, pair).value[1..] + rest).value) == Ok(BuildRequest(op, pair).value)
  {
    var m := BuildRequest(op, pair).value;
    var p := Encode(m).value;
    FrameLengthSurvives(p, rest);
  }

  /** A frame whose four-byte length counts exactly the bytes after it hands the client the
      value of the message those bytes decode to, if that message is a response. */
  lemma ReadWholeFrame(w: Bytes, p: Bytes)
    requires |w| >= 4 && ReadI32(w, 0) == |w| - 4 && w[4..] == p
    requires Decode(p).Ok? && Decode(p).value.response
    ensures ReadReply(w) == Ok(Decode(p).value.val)
  {
    assert w[4..4 + ReadI32(w, 0)] == p;
  }

  /** Every reply frame the server can write is accepted, and the client receives the reply's
      value. */
  lemma ClientAcceptsReply(m: Message)
    requires IsOpName(m.op) && Encodable(m.key) && Encodable(m.val) && m.response
    ensures |Server.SendReply(m)| == 1
    ensures ReadReply(Server.SendReply(m)[0]) == Ok(m.val)
  {
    var p := Encode(m).value;
    RoundTrip(m, []);
    assert p + [] == p;
    ReadWholeFrame(Server.SendReply(m)[0], p);
  }

  /** `toLowerCase` on ASCII letters. */
  function LowerBytes(b: Bytes): (r: Bytes)
    ensures |r| == |b|
    ensures forall i :: 0 <= i < |b| ==> r[i] == if 'A' as int <= b[i] <= 'Z' as int then b[i] + 32 else b[i]
  {
    seq(|b|, i requires 0 <= i < |b| => if 'A' as int <= b[i] <= 'Z' as int then b[i] + 32 else b[i])
  }

  /** The operation `main` hands to `running` for the second argument: multiget is run as
      get and multiset as set; anything else is refused. */
  function Command(arg: Bytes): (r: Option<string>)
    ensures r.Some? ==> IsOpName(r.value)
    ensures r == Some("get") <==> LowerBytes(arg) in {Lit("get"), Lit("multiget")}
    ensures r == Some("set") <==> LowerBytes(arg) in {Lit("set"), Lit("multiset")}
    ensures r == Some("stats") <==> LowerBytes(arg) == Lit("stats")
    ensures r == Some("exit") <==> LowerBytes(arg) == Lit("exit")
  {
    WordsDiffer();
    var w := LowerBytes(arg);
    if w == Lit("get") || w == Lit("multiget") then Some("get")
    else if w == Lit("set") || w == Lit("multiset") then Some("set")
    else if w == Lit("stats") then Some("stats")
    else if w == Lit("exit") then Some("exit")
    else None
  }

  /** The arguments' case does not matter. */
  lemma CommandIgnoresCase(arg: Bytes)
    ensures Command(LowerBytes(arg)) == Command(arg)
  {
    assert LowerBytes(LowerBytes(arg)) == LowerBytes(arg);
  }

  /** One call of `running` that `main` makes. */
  datatype Call = Call(op: string, pair: Pair)

  /** How `main` ends: normally, through `System.exit(-1)`, or with the
      `IllegalArgumentException` for an unknown operation. */
  datatype Outcome = Completed | ExitedAbnormally | IllegalArguments

  /** The calls `main` makes, in order, and how it ends. */
  datatype Plan = Plan(calls: seq<Call>, outcome: Outcome)

  /** `main`: the second argument picks the operation. Every argument from the third on is a
      get key, or the arguments from the third on are set pairs; a final key with no value
      ends the program after the pairs before it were sent. */
  method PlanCalls(args: seq<Bytes>) returns (p: Plan)
    ensures |args| < 2 ==> p == Plan([], ExitedAbnormally)
    ensures |args| >= 2 && Command(args[1]).None? ==> p == Plan([], IllegalArguments)
    ensures |args| >= 2 && Command(args[1]) == Some("get") ==>
      && p.outcome == Completed
      && |p.calls| == |args| - 2
      && forall j :: 0 <= j < |p.calls| ==> p.calls[j] == Call("get", Pair(Some(args[j + 2]), None))
    ensures |args| >= 2 && Command(args[1]) == Some("set") ==>
      && p.outcome == (if |args| % 2 == 1 then ExitedAbnormally else Completed)
      && |p.calls| == (|args| - 2) / 2
      && forall j :: 0 <= j < |p.calls| ==> p.calls[j] == Call("set", Pair(Some(args[2 * j + 2]), Some(args[2 * j + 3])))
    ensures |args| >= 2 && Command(args[1]) in {Some("stats"), Some("exit")} ==>
      p == Plan([Call(Command(args[1]).value, Pair(None, None))], Completed)
  {
    if |args| < 2 {
      return Plan([], ExitedAbnormally);
    }
    var op := Command(args[1]);
    if op == Some("get") {
      var calls := [];
      var i := 2;
      while i < |args|
        invariant 2 <= i <= |args| && |calls| == i - 2
        invariant forall j :: 0 <= j < |calls| ==> calls[j] == Call("get", Pair(Some(args[j + 2]), None))
      {
        calls := calls + [Call("get", Pair(Some(args[i]), None))];
        i := i + 1;
      }
      return Plan(calls, Completed);
    } else if op == Some("set") {
      var calls := [];
      var i := 2;
      while i < |args|
        invariant 2 <= i <= |args| && i % 2 == 0 && |calls| == (i - 2) / 2
        invariant forall j :: 0 <= j < |calls| ==> calls[j] == Call("set", Pair(Some(args[2 * j + 2]), Some(args[2 * j + 3])))
      {
        if i + 1 >= |args| {
          return Plan(calls, ExitedAbnormally);
        }
        calls := calls + [Call("set", Pair(Some(args[i]), Some(args[i + 1])))];
        i := i + 2;
      }
      return Plan(calls, Completed);
    } else if op.Some? {
      return Plan([Call(op.value, Pair(None, None))], Completed);
    }
    return Plan([], IllegalArguments);
  }
}
