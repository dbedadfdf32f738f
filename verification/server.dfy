/** One connection of the server (`BinaryServerThread` in src/Server.java), as pure steps:
    the mode byte, the length-prefixed binary request, the dispatch to the four handlers
    with their replies, and the ASCII token loops. Sockets, threads and `System.exit` are
    replaced by the values these steps return. */
module Server {
  import opened Common
  import opened Messages
  import opened Codec
  import Lru
  import LruReference

  /** A Java String key of the shared store; a response-direction request leaves it null. */
  type Key = Option<Bytes>

  /** The cache every connection shares. */
  type Store = Lru.Cache<Key, Bytes>

  /** The capacity `Server()` gives the shared cache. */
  const CACHE_CAPACITY: int := 1000

  function InitialStore(): (s: Store)
    ensures Lru.Valid(s) && s.capacity == CACHE_CAPACITY && s.index == map[]
  {
    Lru.New(CACHE_CAPACITY)
  }

  datatype Mode = BinaryMode | AsciiMode

  /** `run`: the first byte, read as a signed Java byte, selects the binary path only when
      it is -1. */
  function SelectMode(first: byte): (m: Mode)
    ensures m == BinaryMode <==> first == 0xFF
  {
    if SignedByte(first) == -1 then BinaryMode else AsciiMode
  }

  /** Why a connection ended without completing its exchange. */
  datatype Failure =
    | EndOfStream               // readByte or readFully ran out of input
    | NegativeLength            // `new byte[length]` with a negative length
    | Undecodable(e: CodecError)
    | CacheFault                // the cache's null dereference in `put`
    | NoTokens                  // the ASCII line split into no tokens at all

  /** How a connection ended: closed normally, the process shut down after an exit
      request, or the exchange was abandoned. */
  datatype End = Closed | Shutdown | Aborted(why: Failure)

  /** One connection's effect: the store afterwards, what was written back (the reply frame
      in binary mode, one entry per line in ASCII mode), and how it ended. */
  datatype Exchange = Exchange(store: Store, written: seq<Bytes>, end: End)

  /** `binary`, first half: one length byte read as a signed Java byte, then exactly that
      many payload bytes; whatever follows them is never read. */
  function ReadPayload(input: Bytes): (r: Result<Bytes, Failure>)
    ensures |input| == 0 ==> r == Err(EndOfStream)
    ensures |input| > 0 && input[0] >= 0x80 ==> r == Err(NegativeLength)
    ensures r.Ok? <==> |input| > 0 && input[0] < 0x80 && 1 + input[0] <= |input|
    ensures r.Ok? ==> |r.value| == input[0] <= 127 && r.value == input[1..1 + input[0]]
  {
    if |input| == 0 then Err(EndOfStream)
    else
      var length := SignedByte(input[0]);
      if length < 0 then Err(NegativeLength)
      else if |input| - 1 < length then Err(EndOfStream)
      else Ok(input[1..1 + length])
  }

  /** The server's reply message: `new Message(false, true, op)` with the given text as value
      and a single space as key. */
  function Reply(op: string, text: Bytes): (m: Message)
    requires IsOpName(op)
    ensures m == Message(false, true, op, Some(Lit(" ")), Some(text))
  {
    var m := New(false, true, op).value;
    SetKey(SetVal(m, Some(text)), Some(Lit(" ")))
  }

  /** `writeInt(length)` then the encoded reply; nothing is written when encoding throws. */
  function SendReply(m: Message): (w: seq<Bytes>)
    ensures |w| <= 1
    ensures Encode(m).Ok? <==> |w| == 1
    ensures |w| == 1 ==> |w[0]| >= 4 && ReadI32(w[0], 0) == |w[0]| - 4 && w[0][4..] == Encode(m).value
  {
    match Encode(m)
    case Err(_) => []
    case Ok(p) =>
      U32RoundTrip(|p|, p);
      [U32(|p|) + p]
  }

  function GetHitText(k: Key, v: Bytes): Bytes {
    Lit("Request Key-Value pair [") + Show(k) + Lit("] - [") + v + Lit("]")
  }

  function GetMissText(k: Key): Bytes {
    Lit("Key [") + Show(k) + Lit("] does not exist in server! ")
  }

  function SetDuplicateText(k: Key, v: Bytes): Bytes {
    Lit("Duplicate key [") + Show(k) + Lit("] found in server. Rewrite to [") + v + Lit("]")
  }

  function SetNewText(k: Key, v: Bytes): Bytes {
    Lit("Request SET [") + Show(k) + Lit("] [") + v + Lit("]. ")
  }

  function StatsText(stats: Bytes): Bytes {
    Lit("STATS: ") + stats
  }

  const EXIT_TEXT: Bytes := Lit("Exit operation received, system offline. ")

  /** The `get` handler: a first `get` decides hit or miss, a hit reads the value with a
      second `get`. The reply carries the stored value on a hit. */
  function HandleGet(store: Store, k: Key): (r: (Store, Message))
    ensures r.0 == Lru.Get(store, k).0
    ensures r.1.op == "get" && !r.1.request && r.1.response && r.1.key == Some(Lit(" "))
    ensures r.1.val.Some?
    ensures k in store.index ==> r.1.val == Some(GetHitText(k, store.index[k]))
    ensures k in store.index ==> Contains(r.1.val.value, store.index[k])
    ensures k !in store.index ==> r.1.val == Some(GetMissText(k))
  {
    var first := Lru.Get(store, k);
    if first.1.Some? then
      var second := Lru.Get(first.0, k);
      Lru.GetIdempotent(store, k);
      var text := GetHitText(k, second.1.value);
      ContainsAt(text, second.1.value, |Lit("Request Key-Value pair [") + Show(k) + Lit("] - [")|);
      (second.0, Reply("get", text))
    else
      (first.0, Reply("get", GetMissText(k)))
  }

  /** The `set` handler: a `get` picks the wording (duplicate or new), then `put` stores the
      pair. The `get` only promotes the key, which the `put` promotes again, so the net effect
      on the store is the `put` alone. */
  function HandleSet(store: Store, k: Key, v: Bytes): (r: Result<(Store, Message), Failure>)
    ensures r.Ok? <==> Lru.Put(store, k, v).Ok?
    ensures r.Ok? ==> r.value.0 == Lru.Put(store, k, v).value
    ensures r.Ok? ==> r.value.1 == Reply("set", if k in store.index then SetDuplicateText(k, v) else SetNewText(k, v))
    ensures r.Err? ==> r.error == CacheFault
  {
    var first := Lru.Get(store, k);
    var text := if first.1.Some? then SetDuplicateText(k, v) else SetNewText(k, v);
    PutAfterGet(store, k, v);
    match Lru.Put(first.0, k, v)
    case Err(_) => Err(CacheFault)
    case Ok(s2) => Ok((s2, Reply("set", text)))
  }

  /** A `get` followed by a `put` of the same key is the `put` alone. */
  lemma PutAfterGet(store: Store, k: Key, v: Bytes)
    ensures Lru.Put(Lru.Get(store, k).0, k, v) == Lru.Put(store, k, v)
  {
    if k in store.index {
      Lru.RemoveKeyTwice(store.order, k);
    }
  }

  /** `binary`, second half: each decoded operation goes to exactly one handler. The value
      is always present here, because `toMsg` sets it on every message it returns. */
  function Dispatch(store: Store, m: Message, stats: Bytes): (x: Exchange)
    requires m.val.Some?
    ensures m.op == "stats" ==> x == Exchange(store, SendReply(Reply("stats", StatsText(stats))), Closed)
    ensures m.op == "exit" ==> x == Exchange(store, SendReply(Reply("exit", EXIT_TEXT)), Shutdown)
    ensures m.op == "get" ==>
      x == Exchange(HandleGet(store, m.key).0, SendReply(HandleGet(store, m.key).1), Closed)
    ensures m.op == "get" ==> x.store == Lru.Get(store, m.key).0
    ensures m.op == "set" ==> x.end != Shutdown
    ensures m.op == "set" && HandleSet(store, m.key, m.val.value).Ok? ==>
      x == Exchange(HandleSet(store, m.key, m.val.value).value.0,
                    SendReply(HandleSet(store, m.key, m.val.value).value.1), Closed)
    ensures m.op == "set" && HandleSet(store, m.key, m.val.value).Err? ==>
      x == Exchange(store, [], Aborted(HandleSet(store, m.key, m.val.value).error))
    ensures m.op == "set" && Lru.Put(store, m.key, m.val.value).Ok? ==>
      x.store == Lru.Put(store, m.key, m.val.value).value && x.end == Closed
    ensures !IsOpName(m.op) ==> x == Exchange(store, [], Closed)
  {
    if m.op == "stats" then
      Exchange(store, SendReply(Reply("stats", StatsText(stats))), Closed)
    else if m.op == "get" then
      var handled := HandleGet(store, m.key);
      Exchange(handled.0, SendReply(handled.1), Closed)
    else if m.op == "set" then
      match HandleSet(store, m.key, m.val.value)
      case Err(f) => Exchange(store, [], Aborted(f))
      case Ok(handled) => Exchange(handled.0, SendReply(handled.1), Closed)
    else if m.op == "exit" then
      Exchange(store, SendReply(Reply("exit", EXIT_TEXT)), Shutdown)
    else
      Exchange(store, [], Closed)
  }

  /** `binary`: read the payload, decode it, dispatch it. A failure before dispatch leaves
      the store untouched and writes nothing. */
  function Binary(store: Store, input: Bytes, stats: Bytes): (x: Exchange)
    ensures ReadPayload(input).Err? ==> x == Exchange(store, [], Aborted(ReadPayload(input).error))
    ensures ReadPayload(input).Ok? && Decode(ReadPayload(input).value).Err? ==>
      x == Exchange(store, [], Aborted(Undecodable(Decode(ReadPayload(input).value).error)))
    ensures ReadPayload(input).Ok? && Decode(ReadPayload(input).value).Ok? ==>
      x == Dispatch(store, Decode(ReadPayload(input).value).value, stats)
  {
    match ReadPayload(input)
    case Err(f) => Exchange(store, [], Aborted(f))
    case Ok(payload) =>
      match Decode(payload)
      case Err(e) => Exchange(store, [], Aborted(Undecodable(e)))
      case Ok(m) => Dispatch(store, m, stats)
  }

  const ARGUMENT_ERROR_LINE: Bytes := Lit("Input arguments error! ")

  function PutLine(k: Bytes, v: Bytes): Bytes {
    Lit("Server: Put [") + k + Lit("] - [") + v + Lit("] into server! ")
  }

  function GetHitLine(k: Bytes, v: Bytes): Bytes {
    Lit("Server: GET [") + k + Lit("] - [") + v + Lit("] ")
  }

  function GetMissLine(k: Bytes): Bytes {
    Lit("Server: [") + k + Lit("] is not found in server! ")
  }

  /** The ASCII `set` loop over the tokens after the operation, two at a time: each full
      pair is put and reported; a trailing key alone gets the error line. The result is the
      store, the lines written, and whether the loop ran to its end. */
  function SetPairs(store: Store, args: seq<Bytes>): (r: (Store, seq<Bytes>, bool))
    ensures r.2 ==> |r.1| == (|args| + 1) / 2
    decreases |args|
  {
    if |args| == 0 then (store, [], true)
    else if |args| == 1 then (store, [ARGUMENT_ERROR_LINE], true)
    else
      match Lru.Put(store, Some(args[0]), args[1])
      case Err(_) => (store, [], false)
      case Ok(s) =>
        var rest := SetPairs(s, args[2..]);
        (rest.0, [PutLine(args[0], args[1])] + rest.1, rest.2)
  }

  /** The reply lines of the full pairs among `args`, in order. */
  function PairLines(args: seq<Bytes>): (r: seq<Bytes>)
    ensures |r| == |args| / 2
    ensures forall j :: 0 <= j < |r| ==> r[j] == PutLine(args[2 * j], args[2 * j + 1])
  {
    seq(|args| / 2, j requires 0 <= j < |args| / 2 => PutLine(args[2 * j], args[2 * j + 1]))
  }

  lemma PairLinesCons(args: seq<Bytes>)
    requires |args| >= 2
    ensures PairLines(args) == [PutLine(args[0], args[1])] + PairLines(args[2..])
  {
    var rest := PairLines(args[2..]);
    forall j | 1 <= j < |args| / 2 ensures PairLines(args)[j] == rest[j - 1] {
      assert args[2..][2 * (j - 1)] == args[2 * j] && args[2..][2 * (j - 1) + 1] == args[2 * j + 1];
    }
  }

  /** A completed ASCII `set` reports each full pair, in order, and then the trailing key's
      error line if there is one. */
  lemma {:induction false} SetPairsLines(store: Store, args: seq<Bytes>)
    ensures var r := SetPairs(store, args);
      r.2 ==> r.1 == PairLines(args) + if |args| % 2 == 1 then [ARGUMENT_ERROR_LINE] else []
    decreases |args|
  {
    if |args| >= 2 {
      var p := Lru.Put(store, Some(args[0]), args[1]);
      if p.Ok? {
        var rest := SetPairs(p.value, args[2..]);
        SetPairsLines(p.value, args[2..]);
        PairLinesCons(args);
      }
    } else {
      assert PairLines(args) == [];
    }
  }

  /** One key of the ASCII `get` loop: a first `get` decides hit or miss, a hit reads the
      value with a second `get`. The second read changes nothing, so the store ends as after
      one `get`. */
  function GetLine(store: Store, key: Bytes): (r: (Store, Bytes))
    ensures r.0 == Lru.Get(store, Some(key)).0
    ensures r.1 == if Some(key) in store.index then GetHitLine(key, store.index[Some(key)]) else GetMissLine(key)
  {
    var k := Some(key);
    var first := Lru.Get(store, k);
    if first.1.Some? then
      var second := Lru.Get(first.0, k);
      Lru.GetIdempotent(store, k);
      (second.0, GetHitLine(key, second.1.value))
    else (first.0, GetMissLine(key))
  }

  /** The ASCII `get` loop: one line per key, the value on a hit; only recency changes. */
  function GetEach(store: Store, keys: seq<Bytes>): (r: (Store, seq<Bytes>))
    ensures |r.1| == |keys|
    ensures r.0.index == store.index && r.0.count == store.count && r.0.capacity == store.capacity
    decreases |keys|
  {
    if keys == [] then (store, [])
    else
      var first := GetLine(store, keys[0]);
      var rest := GetEach(first.0, keys[1..]);
      (rest.0, [first.1] + rest.1)
  }

  /** Line `j` of an ASCII `get` reports key `j` with its stored value, or as not found: the
      reads before it moved keys about but did not change which keys are stored. */
  lemma {:induction false} GetEachLines(store: Store, keys: seq<Bytes>)
    ensures forall j :: 0 <= j < |keys| ==>
      GetEach(store, keys).1[j] ==
        if Some(keys[j]) in store.index then GetHitLine(keys[j], store.index[Some(keys[j])]) else GetMissLine(keys[j])
    decreases |keys|
  {
    if keys != [] {
      var first := GetLine(store, keys[0]);
      var rest := GetEach(first.0, keys[1..]);
      var lines := [first.1] + rest.1;
      assert GetEach(store, keys).1 == lines;
      GetEachLines(first.0, keys[1..]);
      forall j | 1 <= j < |keys|
        ensures lines[j] ==
          if Some(keys[j]) in store.index then GetHitLine(keys[j], store.index[Some(keys[j])]) else GetMissLine(keys[j])
      {
        assert lines[j] == rest.1[j - 1] && keys[1..][j - 1] == keys[j];
      }
    }
  }

  /** The accesses an ASCII `set` line makes: one write for each full pair, in order; a
      trailing key alone makes none. */
  function PairWrites(args: seq<Bytes>): (r: seq<LruReference.Access<Key, Bytes>>)
    ensures |r| == |args| / 2
    ensures forall j :: 0 <= j < |r| ==> r[j] == LruReference.Write(Some(args[2 * j]), args[2 * j + 1])
  {
    seq(|args| / 2, j requires 0 <= j < |args| / 2 => LruReference.Write(Some(args[2 * j]), args[2 * j + 1]))
  }

  /** The accesses an ASCII `get` line makes: one read per key. Each hit reads twice, but the
      second read changes nothing (`Lru.GetIdempotent`). */
  function KeyReads(keys: seq<Bytes>): (r: seq<LruReference.Access<Key, Bytes>>)
    ensures |r| == |keys|
    ensures forall j :: 0 <= j < |r| ==> r[j] == LruReference.Read(Some(keys[j]))
  {
    seq(|keys|, j requires 0 <= j < |keys| => LruReference.Read(Some(keys[j])))
  }

  /** The store after an ASCII `set` is the cache after the pairs' puts, and the loop stops
      early exactly when one of those puts faults. */
  lemma {:induction false} SetPairsRuns(store: Store, args: seq<Bytes>)
    ensures SetPairs(store, args).2 <==> LruReference.Run(store, PairWrites(args)).Ok?
    ensures SetPairs(store, args).2 ==> LruReference.Run(store, PairWrites(args)).value == SetPairs(store, args).0
    decreases |args|
  {
    if |args| >= 2 {
      var w := PairWrites(args);
      assert w[1..] == PairWrites(args[2..]);
      match Lru.Put(store, Some(args[0]), args[1])
      case Err(_) =>
      case Ok(s) => SetPairsRuns(s, args[2..]);
    } else {
      assert PairWrites(args) == [];
    }
  }

  /** The store after an ASCII `get` is the cache after one `get` per key. */
  lemma {:induction false} GetEachRuns(store: Store, keys: seq<Bytes>)
    ensures LruReference.Run(store, KeyReads(keys)) == Ok(GetEach(store, keys).0)
    decreases |keys|
  {
    if keys != [] {
      var k := Some(keys[0]);
      assert KeyReads(keys)[1..] == KeyReads(keys[1..]);
      GetEachRuns(Lru.Get(store, k).0, keys[1..]);
    }
  }

  /** On a valid store an ASCII `set` never faults and leaves the store valid. */
  lemma {:induction false} SetPairsKeepsValid(store: Store, args: seq<Bytes>)
    requires Lru.Valid(store)
    ensures SetPairs(store, args).2 && Lru.Valid(SetPairs(store, args).0)
    decreases |args|
  {
    if |args| >= 2 {
      Lru.PutKeepsValid(store, Some(args[0]), args[1]);
      SetPairsKeepsValid(Lru.Put(store, Some(args[0]), args[1]).value, args[2..]);
    }
  }

  /** An ASCII `get` leaves a valid store valid. */
  lemma {:induction false} GetEachKeepsValid(store: Store, keys: seq<Bytes>)
    requires Lru.Valid(store)
    ensures Lru.Valid(GetEach(store, keys).0)
    decreases |keys|
  {
    if keys != [] {
      var k := Some(keys[0]);
      Lru.GetKeepsValid(store, k);
      GetEachKeepsValid(Lru.Get(store, k).0, keys[1..]);
    }
  }

  /** A binary exchange leaves a valid store valid and never meets the cache's fault. */
  lemma BinaryKeepsValid(store: Store, input: Bytes, stats: Bytes)
    requires Lru.Valid(store)
    ensures Lru.Valid(Binary(store, input, stats).store)
    ensures Binary(store, input, stats).end != Aborted(CacheFault)
  {
    if ReadPayload(input).Ok? && Decode(ReadPayload(input).value).Ok? {
      var m := Decode(ReadPayload(input).value).value;
      if m.op == "get" {
        Lru.GetKeepsValid(store, m.key);
      } else if m.op == "set" {
        Lru.PutKeepsValid(store, m.key, m.val.value);
      }
    }
  }

  /** The tokens from position `i` on; none once `i` has passed the end. */
  function From(arr: seq<Bytes>, i: nat): seq<Bytes> {
    if i <= |arr| then arr[i..] else []
  }

  /** The `set` loop of `ascii` as written: `i` runs over 1, 3, 5, ... below the token count. */
  method AsciiSetLoop(store: Store, arr: seq<Bytes>) returns (s: Store, lines: seq<Bytes>, ok: bool)
    requires |arr| >= 1
    ensures (s, lines, ok) == SetPairs(store, arr[1..])
  {
    s, lines, ok := store, [], true;
    var i := 1;
    while i < |arr|
      invariant 1 <= i <= |arr| + 1
      invariant SetPairs(s, From(arr, i)).0 == SetPairs(store, arr[1..]).0
      invariant lines + SetPairs(s, From(arr, i)).1 == SetPairs(store, arr[1..]).1
      invariant SetPairs(s, From(arr, i)).2 == SetPairs(store, arr[1..]).2
      decreases |arr| + 1 - i
    {
      if i + 1 < |arr| {
        var key, val := arr[i], arr[i + 1];
        SetPairsStep(s, arr, i, lines);
        match Lru.Put(s, Some(key), val)
        case Err(_) =>
          assert lines + [] == lines;
          ok := false;
          return;
        case Ok(s') =>
          s := s';
          lines := lines + [PutLine(key, val)];
      } else {
        SetPairsTrailing(s, arr, i, lines);
        lines := lines + [ARGUMENT_ERROR_LINE];
      }
      i := i + 2;
    }
    assert From(arr, i) == [];
    assert lines + [] == lines;
  }

  /** One turn of the `set` loop over a full pair: a faulting put ends the outcome there;
      otherwise the outcome splits into the pair's line and the outcome of the rest. */
  lemma SetPairsStep(s: Store, arr: seq<Bytes>, i: nat, lines: seq<Bytes>)
    requires 1 <= i && i + 1 < |arr|
    ensures Lru.Put(s, Some(arr[i]), arr[i + 1]).Err? ==> SetPairs(s, From(arr, i)) == (s, [], false)
    ensures Lru.Put(s, Some(arr[i]), arr[i + 1]).Ok? ==>
      var s' := Lru.Put(s, Some(arr[i]), arr[i + 1]).value;
      var rest := SetPairs(s', From(arr, i + 2));
      && rest.0 == SetPairs(s, From(arr, i)).0
      && rest.2 == SetPairs(s, From(arr, i)).2
      && (lines + [PutLine(arr[i], arr[i + 1])]) + rest.1 == lines + SetPairs(s, From(arr, i)).1
  {
    assert From(arr, i)[0] == arr[i] && From(arr, i)[1] == arr[i + 1];
    assert From(arr, i)[2..] == From(arr, i + 2);
    if Lru.Put(s, Some(arr[i]), arr[i + 1]).Ok? {
      var s' := Lru.Put(s, Some(arr[i]), arr[i + 1]).value;
      var rest := SetPairs(s', From(arr, i + 2));
      var line := PutLine(arr[i], arr[i + 1]);
      assert (lines + [line]) + rest.1 == lines + ([line] + rest.1);
    }
  }

  /** The last turn of the `set` loop when a key is left without a value: one error line and
      nothing after it. */
  lemma SetPairsTrailing(s: Store, arr: seq<Bytes>, i: nat, lines: seq<Bytes>)
    requires 1 <= i && i + 1 == |arr|
    ensures SetPairs(s, From(arr, i)) == (s, [ARGUMENT_ERROR_LINE], true)
    ensures SetPairs(s, From(arr, i + 2)) == (s, [], true)
    ensures (lines + [ARGUMENT_ERROR_LINE]) + SetPairs(s, From(arr, i + 2)).1 == lines + SetPairs(s, From(arr, i)).1
  {
    assert |From(arr, i)| == 1;
    assert (lines + [ARGUMENT_ERROR_LINE]) + [] == lines + [ARGUMENT_ERROR_LINE];
  }

  /** The `get` loop of `ascii` as written: `i` runs over 1, 2, 3, ... below the token count. */
  method AsciiGetLoop(store: Store, arr: seq<Bytes>) returns (s: Store, lines: seq<Bytes>)
    requires |arr| >= 1
    ensures (s, lines) == GetEach(store, arr[1..])
  {
    s, lines := store, [];
    var i := 1;
    while i < |arr|
      invariant 1 <= i <= |arr|
      invariant GetEach(s, arr[i..]).0 == GetEach(store, arr[1..]).0
      invariant lines + GetEach(s, arr[i..]).1 == GetEach(store, arr[1..]).1
    {
      var step := GetLine(s, arr[i]);
      GetEachStep(s, arr, i, lines);
      s := step.0;
      lines := lines + [step.1];
      i := i + 1;
    }
    assert arr[i..] == [];
    assert lines + [] == lines;
  }

  /** One turn of the `get` loop: the remaining keys' outcome splits into the next key's line
      and the outcome of the keys after it. */
  lemma GetEachStep(s: Store, arr: seq<Bytes>, i: nat, lines: seq<Bytes>)
    requires 1 <= i < |arr|
    ensures var step := GetLine(s, arr[i]);
      && GetEach(step.0, arr[i + 1..]).0 == GetEach(s, arr[i..]).0
      && (lines + [step.1]) + GetEach(step.0, arr[i + 1..]).1 == lines + GetEach(s, arr[i..]).1
  {
    assert arr[i..][0] == arr[i] && arr[i..][1..] == arr[i + 1..];
    var step := GetLine(s, arr[i]);
    var after := GetEach(step.0, arr[i + 1..]);
    assert (lines + [step.1]) + after.1 == lines + ([step.1] + after.1);
  }

  /** What the ASCII path leaves behind for the tokens of its line: the set loop, the get
      loop, the stats line, or, for any other first token, nothing written at all. */
  function AsciiOutcome(store: Store, arr: seq<Bytes>, stats: Bytes): Exchange {
    if arr == [] then Exchange(store, [], Aborted(NoTokens))
    else if arr[0] == Lit("set") then
      var r := SetPairs(store, arr[1..]);
      Exchange(r.0, r.1, if r.2 then Closed else Aborted(CacheFault))
    else if arr[0] == Lit("get") then Exchange(GetEach(store, arr[1..]).0, GetEach(store, arr[1..]).1, Closed)
    else if arr[0] == Lit("stats") then Exchange(store, [Lit("Server: ") + stats], Closed)
    else Exchange(store, [], Closed)
  }

  /** `ascii`, from the token list of the line on: the first token picks the loop. */
  method Ascii(store: Store, arr: seq<Bytes>, stats: Bytes) returns (x: Exchange)
    ensures arr == [] ==> x == Exchange(store, [], Aborted(NoTokens))
    ensures arr != [] && arr[0] == Lit("set") ==>
      var r := SetPairs(store, arr[1..]);
      x == Exchange(r.0, r.1, if r.2 then Closed else Aborted(CacheFault))
    ensures arr != [] && arr[0] == Lit("get") ==>
      x == Exchange(GetEach(store, arr[1..]).0, GetEach(store, arr[1..]).1, Closed)
    ensures arr != [] && arr[0] == Lit("stats") ==> x == Exchange(store, [Lit("Server: ") + stats], Closed)
    ensures arr != [] && arr[0] != Lit("set") && arr[0] != Lit("get") && arr[0] != Lit("stats") ==>
      x == Exchange(store, [], Closed)
    ensures x == AsciiOutcome(store, arr, stats)
  {
    if arr == [] {
      return Exchange(store, [], Aborted(NoTokens));
    }
    WordsDiffer();
    if arr[0] == Lit("set") {
      var s, lines, ok := AsciiSetLoop(store, arr);
      return Exchange(s, lines, if ok then Closed else Aborted(CacheFault));
    }
    if arr[0] == Lit("get") {
      var s, lines := AsciiGetLoop(store, arr);
      return Exchange(s, lines, Closed);
    }
    if arr[0] == Lit("stats") {
      return Exchange(store, [Lit("Server: ") + stats], Closed);
    }
    return Exchange(store, [], Closed);
  }

  /** `run`: an empty stream ends the connection; otherwise the first byte picks the path.
      The ASCII path is given the tokens of its line. */
  method Connection(store: Store, input: Bytes, asciiTokens: seq<Bytes>, stats: Bytes) returns (x: Exchange)
    ensures input == [] ==> x == Exchange(store, [], Aborted(EndOfStream))
    ensures input != [] && input[0] == 0xFF ==> x == Binary(store, input[1..], stats)
    ensures input != [] && input[0] != 0xFF ==> x == AsciiOutcome(store, asciiTokens, stats)
  {
    if input == [] {
      return Exchange(store, [], Aborted(EndOfStream));
    }
    match SelectMode(input[0])
    case BinaryMode =>
      x := Binary(store, input[1..], stats);
    case AsciiMode =>
      x := Ascii(store, asciiTokens, stats);
  }
}
