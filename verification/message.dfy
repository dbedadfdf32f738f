/** The protocol message of one exchange (src/Message.java): two direction flags,
    an operation name, and a key and value that stay null until set. */
module Messages {
  import opened Common

  /** The only operation names the constructor accepts. */
  predicate IsOpName(s: string) {
    s == "stats" || s == "set" || s == "get" || s == "exit"
  }

  /** A `Message` object's fields; `None` is a field that is still null. */
  datatype Message = Message(request: bool, response: bool, op: string, key: Option<Bytes>, val: Option<Bytes>)

  /** The constructor's `IllegalArgumentException`. */
  datatype MessageError = IllegalOperation

  /** `toLowerCase` on the ASCII letters (the only letters an accepted name can contain). */
  function ToLower(s: string): (r: string)
    ensures |r| == |s|
    ensures forall i :: 0 <= i < |s| ==> r[i] == if 'A' <= s[i] <= 'Z' then (s[i] as int + 32) as char else s[i]
  {
    if s == [] then []
    else [if 'A' <= s[0] <= 'Z' then (s[0] as int + 32) as char else s[0]] + ToLower(s[1..])
  }

  /** `toUpperCase` on the ASCII letters. */
  function ToUpper(s: string): (r: string)
    ensures |r| == |s|
    ensures forall i :: 0 <= i < |s| ==> r[i] == if 'a' <= s[i] <= 'z' then (s[i] as int - 32) as char else s[i]
  {
    if s == [] then []
    else [if 'a' <= s[0] <= 'z' then (s[0] as int - 32) as char else s[0]] + ToUpper(s[1..])
  }

  lemma LowerCaseNamesAreFixed(s: string)
    requires IsOpName(s)
    ensures ToLower(s) == s
  {
  }

  /** `new Message(request, response, operation)`: the field `op` receives the lower-cased
      argument, but the check that may throw looks at the argument as given. */
  function New(request: bool, response: bool, operation: string): (r: Result<Message, MessageError>)
    ensures r.Ok? <==> IsOpName(operation)
    ensures r.Ok? ==> r.value.request == request && r.value.response == response
    ensures r.Ok? ==> r.value.op == operation
    ensures r.Ok? ==> r.value.key == None && r.value.val == None
  {
    var m := Message(request, response, ToLower(operation), None, None);
    if !IsOpName(operation) then Err(IllegalOperation)
    else
      LowerCaseNamesAreFixed(operation);
      Ok(m)
  }

  /** An upper-case spelling of an accepted name is still refused, although lowering it
      would give an accepted name. */
  lemma UpperCaseNameRefused()
    ensures ToLower("GET") == "get"
    ensures New(true, false, "GET").Err?
  {
    assert ToLower("GET")[0] == 'g';
    assert ToLower("GET")[1] == 'e';
    assert ToLower("GET")[2] == 't';
  }

  function IsRequest(m: Message): bool { m.request }
  function IsResponse(m: Message): bool { m.response }
  function GetKey(m: Message): Option<Bytes> { m.key }
  function GetVal(m: Message): Option<Bytes> { m.val }

  /** `getOp`: for any message the constructor produced and the setters then changed,
      one of the four names (see `OpSurvivesSetters`). */
  function GetOp(m: Message): string { m.op }

  function SetRequest(m: Message, b: bool): (r: Message)
    ensures r.request == b
    ensures r.response == m.response && r.op == m.op && r.key == m.key && r.val == m.val
  {
    m.(request := b)
  }

  function SetResponse(m: Message, b: bool): (r: Message)
    ensures r.response == b
    ensures r.request == m.request && r.op == m.op && r.key == m.key && r.val == m.val
  {
    m.(response := b)
  }

  function SetKey(m: Message, k: Option<Bytes>): (r: Message)
    ensures r.key == k
    ensures r.request == m.request && r.response == m.response && r.op == m.op && r.val == m.val
  {
    m.(key := k)
  }

  function SetVal(m: Message, v: Option<Bytes>): (r: Message)
    ensures r.val == v
    ensures r.request == m.request && r.response == m.response && r.op == m.op && r.key == m.key
  {
    m.(val := v)
  }

  /** One call of a public setter. */
  datatype Update =
    | SetsRequest(b: bool)
    | SetsResponse(b: bool)
    | SetsKey(k: Option<Bytes>)
    | SetsVal(v: Option<Bytes>)

  function Apply(m: Message, u: Update): Message {
    match u
    case SetsRequest(b) => SetRequest(m, b)
    case SetsResponse(b) => SetResponse(m, b)
    case SetsKey(k) => SetKey(m, k)
    case SetsVal(v) => SetVal(m, v)
  }

  /** The message after a sequence of setter calls, first call first. */
  function ApplyAll(m: Message, us: seq<Update>): Message
    decreases |us|
  {
    if us == [] then m else ApplyAll(Apply(m, us[0]), us[1..])
  }

  /** No setter touches `op`, so every message a successful constructor call produced
      keeps answering `getOp` with one of the four names. */
  lemma {:induction false} OpSurvivesSetters(request: bool, response: bool, operation: string, us: seq<Update>)
    requires New(request, response, operation).Ok?
    ensures IsOpName(GetOp(ApplyAll(New(request, response, operation).value, us)))
    ensures GetOp(ApplyAll(New(request, response, operation).value, us)) == operation
  {
    OpUnchanged(New(request, response, operation).value, us);
  }

  lemma {:induction false} OpUnchanged(m: Message, us: seq<Update>)
    ensures ApplyAll(m, us).op == m.op
    decreases |us|
  {
    if us != [] {
      OpUnchanged(Apply(m, us[0]), us[1..]);
    }
  }

  /** The key is the last `setKey` argument, or null if `setKey` was never called;
      the other setters leave it alone. */
  function LastKey(k0: Option<Bytes>, us: seq<Update>): Option<Bytes>
    decreases |us|
  {
    if us == [] then k0
    else if us[|us| - 1].SetsKey? then us[|us| - 1].k
    else LastKey(k0, us[..|us| - 1])
  }

  /** Each getter answers with the argument of the last call of its setter, or with the
      field's earlier value if that setter was never called. */
  lemma {:induction false} GettersSeeLastSetters(m: Message, us: seq<Update>)
    ensures GetKey(ApplyAll(m, us)) == LastKey(m.key, us)
    ensures GetVal(ApplyAll(m, us)) == LastVal(m.val, us)
    ensures IsRequest(ApplyAll(m, us)) == LastRequest(m.request, us)
    ensures IsResponse(ApplyAll(m, us)) == LastResponse(m.response, us)
    decreases |us|
  {
    if us != [] {
      var last := us[|us| - 1];
      var front := us[..|us| - 1];
      ApplyAllSnoc(m, front, last);
      assert us == front + [last];
      GettersSeeLastSetters(m, front);
    }
  }

  /** The value is the last `setVal` argument, or null if `setVal` was never called. */
  function LastVal(v0: Option<Bytes>, us: seq<Update>): Option<Bytes>
    decreases |us|
  {
    if us == [] then v0
    else if us[|us| - 1].SetsVal? then us[|us| - 1].v
    else LastVal(v0, us[..|us| - 1])
  }

  /** The request flag is the last `setRequest` argument, or the constructor's flag. */
  function LastRequest(b0: bool, us: seq<Update>): bool
    decreases |us|
  {
    if us == [] then b0
    else if us[|us| - 1].SetsRequest? then us[|us| - 1].b
    else LastRequest(b0, us[..|us| - 1])
  }

  /** The response flag is the last `setResponse` argument, or the constructor's flag. */
  function LastResponse(b0: bool, us: seq<Update>): bool
    decreases |us|
  {
    if us == [] then b0
    else if us[|us| - 1].SetsResponse? then us[|us| - 1].b
    else LastResponse(b0, us[..|us| - 1])
  }

  lemma {:induction false} ApplyAllSnoc(m: Message, us: seq<Update>, u: Update)
    ensures ApplyAll(m, us + [u]) == Apply(ApplyAll(m, us), u)
    decreases |us|
  {
    if us != [] {
      assert (us + [u])[1..] == us[1..] + [u];
      ApplyAllSnoc(Apply(m, us[0]), us[1..], u);
    }
  }

  /** Java's `%s` of a possibly-null String. */
  function Show(s: Option<Bytes>): Bytes {
    match s
    case None => Lit("null")
    case Some(b) => b
  }

  const OPERATION: Bytes := Lit("Operation: ")

  /** `msgToString`: a stats message shows only its value; any other shows the upper-cased
      operation, the key and the value. */
  function MsgToString(m: Message): (r: Bytes)
    ensures OPERATION <= r
    ensures Contains(r, Show(m.val))
    ensures m.op != "stats" ==> Contains(r, Lit(ToUpper(m.op))) && Contains(r, Show(m.key))
  {
    var value := Show(m.val) + Lit("]");
    ContainsFront(Show(m.val), Lit("]"));
    if m.op == "stats" then
      ContainsAfter(Lit("STATS. Value: ["), value, Show(m.val));
      var tail := Lit("STATS. Value: [") + value;
      ContainsAfter(OPERATION, tail, Show(m.val));
      OPERATION + tail
    else
      var afterKey := Lit("] Value: [") + value;
      ContainsAfter(Lit("] Value: ["), value, Show(m.val));
      var fromKey := Show(m.key) + afterKey;
      ContainsFront(Show(m.key), afterKey);
      ContainsAfter(Show(m.key), afterKey, Show(m.val));
      var afterOp := Lit(". Key: [") + fromKey;
      ContainsAfter(Lit(". Key: ["), fromKey, Show(m.key));
      ContainsAfter(Lit(". Key: ["), fromKey, Show(m.val));
      var upper := Lit(ToUpper(m.op));
      var tail := upper + afterOp;
      ContainsFront(upper, afterOp);
      ContainsAfter(upper, afterOp, Show(m.key));
      ContainsAfter(upper, afterOp, Show(m.val));
      ContainsAfter(OPERATION, tail, upper);
      ContainsAfter(OPERATION, tail, Show(m.key));
      ContainsAfter(OPERATION, tail, Show(m.val));
      OPERATION + tail
  }

  /** A stats message's text does not depend on its key. */
  lemma StatsTextIgnoresKey(m: Message, k: Option<Bytes>)
    requires m.op == "stats"
    ensures MsgToString(SetKey(m, k)) == MsgToString(m)
  {
  }
}
