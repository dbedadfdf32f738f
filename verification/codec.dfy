/** The binary payload codec (src/BinaryCoder.java): a 16-bit big-endian flags word,
    then the key and the value, each as a 2-byte big-endian length and its bytes. */
module Codec {
  import opened Common
  import opened Messages

  const MIN_LENGTH: nat := 2
  const MAGIC: bv16 := 0x5400
  const MAGIC_MASK: bv16 := 0xFC00
  const REQUEST: bv16 := 0x0100
  const RESPONSE: bv16 := 0x0200
  const STATS: bv16 := 0x0008
  const SET: bv16 := 0x0004
  const GET: bv16 := 0x0002
  const EXIT: bv16 := 0x0001

  /** Largest length `writeUTF` can put in its 2-byte prefix. */
  const MAX_UTF: nat := 0xFFFF

  /** The `IOException`s (and the one `NullPointerException`) the coder can raise. */
  datatype CodecError =
    | UnsupportedOperation   // toBinary: op is none of the four names
    | NullString             // toBinary: writeUTF of a null key or value
    | StringTooLong          // toBinary: writeUTF of more than 65535 bytes
    | TooShort               // toMsg: fewer than MIN_LENGTH bytes
    | BadMagic               // toMsg: (flags & MAGIC_MASK) != MAGIC
    | Truncated              // toMsg: readUTF ran past the end of the input
    | NoOperation            // toMsg: no operation bit set
    | NoDirection            // toMsg: neither direction bit set
    | RefusedOperation       // toMsg: the Message constructor refused the name

  /** The flags word held in two bytes, high byte first. */
  function Word(hi: byte, lo: byte): bv16 {
    (hi as int * 256 + lo as int) as bv16
  }

  function OpBit(op: string): Option<bv16> {
    if op == "stats" then Some(STATS)
    else if op == "set" then Some(SET)
    else if op == "get" then Some(GET)
    else if op == "exit" then Some(EXIT)
    else None
  }

  /** `writeUTF`: length prefix then the bytes; null and over-long strings throw. */
  function WriteUtf(s: Option<Bytes>): (r: Result<Bytes, CodecError>)
    ensures r.Ok? <==> s.Some? && |s.value| <= MAX_UTF
    ensures r.Ok? ==> |r.value| == 2 + |s.value| && ReadU16(r.value, 0) == |s.value| && r.value[2..] == s.value
  {
    match s
    case None => Err(NullString)
    case Some(b) =>
      if |b| > MAX_UTF then Err(StringTooLong)
      else
        U16RoundTrip(|b|, [], b);
        Ok(U16(|b|) + b)
  }

  /** Bit positions of the flags word the encoder sets for `m`. */
  function FlagsOf(m: Message, opBit: bv16): bv16 {
    var w := MAGIC;
    var w := if m.response then w | RESPONSE else w;
    var w := if m.request then w | REQUEST else w;
    w | opBit
  }

  /** `toBinary`: the flags word, then the key, then the value. */
  function Encode(m: Message): (r: Result<Bytes, CodecError>)
    ensures r.Ok? <==> IsOpName(m.op) && Encodable(m.key) && Encodable(m.val)
    ensures !IsOpName(m.op) ==> r == Err(UnsupportedOperation)
    ensures r.Ok? ==> |r.value| == 6 + |m.key.value| + |m.val.value|
    ensures r.Ok? ==> WellFormedFlags(m, Word(r.value[0], r.value[1]))
    ensures r.Ok? ==>
      && ReadU16(r.value, 2) == |m.key.value|
      && r.value[4..4 + |m.key.value|] == m.key.value
      && ReadU16(r.value, 4 + |m.key.value|) == |m.val.value|
      && r.value[6 + |m.key.value|..] == m.val.value
  {
    match OpBit(m.op)
    case None => Err(UnsupportedOperation)
    case Some(bit) =>
      var flags := FlagsOf(m, bit);
      var key :- WriteUtf(m.key);
      var val :- WriteUtf(m.val);
      var r := U16(flags as int) + key + val;
      EncodedFlags(m, bit, key + val);
      assert r[2..] == key + val;
      assert key == r[2..2 + |key|];
      Ok(r)
  }

  predicate Encodable(s: Option<Bytes>) {
    s.Some? && |s.value| <= MAX_UTF
  }

  /** The flags word as the encoder promises it: the magic in the top six bits, each
      direction bit exactly when the message has that flag, nothing in bits 4 to 7, and
      exactly the operation's bit in bits 0 to 3. */
  predicate WellFormedFlags(m: Message, w: bv16) {
    && w & MAGIC_MASK == MAGIC
    && (w & REQUEST != 0 <==> m.request)
    && (w & RESPONSE != 0 <==> m.response)
    && w & 0x00F0 == 0
    && OpBit(m.op).Some?
    && w & 0x000F == OpBit(m.op).value
  }

  lemma EncodedFlags(m: Message, bit: bv16, rest: Bytes)
    requires OpBit(m.op) == Some(bit)
    ensures var b := U16(FlagsOf(m, bit) as int) + rest;
      |b| >= 2 && Word(b[0], b[1]) == FlagsOf(m, bit) && WellFormedFlags(m, Word(b[0], b[1]))
  {
    var w := FlagsOf(m, bit);
    var b := U16(w as int) + rest;
    assert b[0] as int * 256 + b[1] as int == w as int;
  }

  /** `readUTF` at `pos`: the string and the position after it, or `None` at end of input. */
  function ReadUtf(b: Bytes, pos: nat): (r: Option<(Bytes, nat)>)
    ensures r.Some? <==> pos + 2 <= |b| && pos + 2 + ReadU16(b, pos) <= |b|
    ensures r.Some? ==> r.value.1 == pos + 2 + |r.value.0| <= |b| && r.value.0 == b[pos + 2..r.value.1]
  {
    if pos + 2 > |b| then None
    else
      var n := ReadU16(b, pos);
      if pos + 2 + n > |b| then None
      else Some((b[pos + 2..pos + 2 + n], pos + 2 + n))
  }

  /** The name the decoder settles on: each set operation bit overwrites the name the
      previous test chose, in the order stats, get, set, exit. */
  function ResolveOp(w: bv16): Option<string> {
    var op := None;
    var op := if w & STATS != 0 then Some("stats") else op;
    var op := if w & GET != 0 then Some("get") else op;
    var op := if w & SET != 0 then Some("set") else op;
    var op := if w & EXIT != 0 then Some("exit") else op;
    op
  }

  /** With several operation bits set the highest-priority one wins: exit, then set,
      then get, then stats; with none set there is no operation. */
  lemma ResolveOpPriority(w: bv16)
    ensures ResolveOp(w) == Some("exit") <==> w & EXIT != 0
    ensures ResolveOp(w) == Some("set") <==> w & EXIT == 0 && w & SET != 0
    ensures ResolveOp(w) == Some("get") <==> w & EXIT == 0 && w & SET == 0 && w & GET != 0
    ensures ResolveOp(w) == Some("stats") <==> w & 0x0007 == 0 && w & STATS != 0
    ensures ResolveOp(w) == None <==> w & 0x000F == 0
    ensures ResolveOp(w).Some? ==> IsOpName(ResolveOp(w).value)
  {
    assert w & 0x0007 == 0 <==> w & EXIT == 0 && w & SET == 0 && w & GET == 0;
    assert w & 0x000F == 0 <==> w & 0x0007 == 0 && w & STATS == 0;
  }

  /** `toMsg`. */
  function Decode(b: Bytes): (r: Result<Message, CodecError>)
    ensures |b| < MIN_LENGTH ==> r == Err(TooShort)
    ensures |b| >= MIN_LENGTH && Word(b[0], b[1]) & MAGIC_MASK != MAGIC ==> r == Err(BadMagic)
    ensures r != Err(RefusedOperation)
    ensures r.Ok? ==> var w := Word(b[0], b[1]);
      && IsOpName(r.value.op)
      && Some(r.value.op) == ResolveOp(w)
      && r.value.request == (w & REQUEST != 0)
      && r.value.response == (w & RESPONSE != 0)
      && (r.value.request || r.value.response)
      && (r.value.key.Some? <==> r.value.request)
      && r.value.val.Some?
    ensures r.Ok? <==>
      && |b| >= MIN_LENGTH
      && Word(b[0], b[1]) & MAGIC_MASK == MAGIC
      && ReadUtf(b, 2).Some?
      && ReadUtf(b, ReadUtf(b, 2).value.1).Some?
      && Word(b[0], b[1]) & 0x000F != 0
      && Word(b[0], b[1]) & 0x0300 != 0
    ensures r.Ok? ==>
      && r.value.val == Some(ReadUtf(b, ReadUtf(b, 2).value.1).value.0)
      && (r.value.request ==> r.value.key == Some(ReadUtf(b, 2).value.0))
  {
    if |b| < MIN_LENGTH then Err(TooShort)
    else
      var w := Word(b[0], b[1]);
      ResolveOpPriority(w);
      assert w & 0x0300 != 0 <==> w & REQUEST != 0 || w & RESPONSE != 0;
      if w & MAGIC_MASK != MAGIC then Err(BadMagic)
      else
        var request := w & REQUEST != 0;
        var response := w & RESPONSE != 0;
        var op := ResolveOp(w);
        match ReadUtf(b, 2)
        case None => Err(Truncated)
        case Some((key, afterKey)) =>
          match ReadUtf(b, afterKey)
          case None => Err(Truncated)
          case Some((val, _)) =>
            if op.None? then Err(NoOperation)
            else
              match New(request, response, op.value)
              case Err(_) => Err(RefusedOperation)
              case Ok(m) =>
                if request then Ok(SetVal(SetKey(m, Some(key)), Some(val)))
                else if response then Ok(SetVal(m, Some(val)))
                else Err(NoDirection)
  }

  /** What `toMsg` rebuilds from a message: both flags, the operation and the value;
      the key only when the request flag is set. */
  function Received(m: Message): Message {
    Message(m.request, m.response, m.op, if m.request then m.key else None, m.val)
  }

  lemma OpFromFlags(m: Message, w: bv16)
    requires WellFormedFlags(m, w)
    ensures ResolveOp(w) == Some(m.op)
  {
    ResolveOpPriority(w);
    assert w & EXIT == (w & 0x000F) & EXIT;
    assert w & SET == (w & 0x000F) & SET;
    assert w & GET == (w & 0x000F) & GET;
    assert w & STATS == (w & 0x000F) & STATS;
    assert w & 0x0007 == (w & 0x000F) & 0x0007;
  }

  /** Round trip: decoding an encoded message, whatever bytes follow it, gives back its
      flags, operation and value, and its key when it is a request. */
  lemma RoundTrip(m: Message, trailing: Bytes)
    requires IsOpName(m.op) && Encodable(m.key) && Encodable(m.val)
    requires m.request || m.response
    ensures Encode(m).Ok?
    ensures Decode(Encode(m).value + trailing) == Ok(Received(m))
  {
    var e := Encode(m).value;
    var b := e + trailing;
    var key, val := m.key.value, m.val.value;
    var w := Word(b[0], b[1]);
    assert w == Word(e[0], e[1]);
    OpFromFlags(m, w);
    assert ReadU16(b, 2) == ReadU16(e, 2) == |key|;
    assert b[4..4 + |key|] == e[4..4 + |key|] == key;
    assert ReadUtf(b, 2) == Some((key, 4 + |key|));
    assert ReadU16(b, 4 + |key|) == ReadU16(e, 4 + |key|) == |val|;
    assert b[6 + |key|..6 + |key| + |val|] == e[6 + |key|..] == val;
    assert ReadUtf(b, 4 + |key|) == Some((val, 6 + |key| + |val|));
  }

  /** A flags word whose top six bits are not the magic is refused as such, whatever
      follows it. */
  lemma BadMagicWhateverFollows(hi: byte, lo: byte, rest: Bytes)
    requires Word(hi, lo) & MAGIC_MASK != MAGIC
    ensures Decode([hi, lo] + rest) == Err(BadMagic)
  {
    var b := [hi, lo] + rest;
    assert b[0] == hi && b[1] == lo;
  }

  /** Bits 4 to 7 of the flags word are never looked at: two payloads that differ only
      there decode alike. */
  lemma UnusedBitsIgnored(b: Bytes, b': Bytes)
    requires |b| == |b'| >= MIN_LENGTH && b[2..] == b'[2..]
    requires Word(b[0], b[1]) & 0xFF0F == Word(b'[0], b'[1]) & 0xFF0F
    ensures Decode(b') == Decode(b)
  {
    var w := Word(b[0], b[1]);
    FlagsAgree(w, Word(b'[0], b'[1]));
    if w & MAGIC_MASK == MAGIC {
      UtfUnaffected(b, b', 2);
      if ReadUtf(b, 2).Some? {
        UtfUnaffected(b, b', ReadUtf(b, 2).value.1);
      }
    }
  }

  /** Two flags words that agree outside bits 4 to 7 agree on everything the decoder reads. */
  lemma FlagsAgree(w: bv16, w': bv16)
    requires w & 0xFF0F == w' & 0xFF0F
    ensures (w & MAGIC_MASK == MAGIC) == (w' & MAGIC_MASK == MAGIC)
    ensures (w & REQUEST != 0) == (w' & REQUEST != 0) && (w & RESPONSE != 0) == (w' & RESPONSE != 0)
    ensures ResolveOp(w) == ResolveOp(w')
  {
    assert w' & MAGIC_MASK == (w' & 0xFF0F) & MAGIC_MASK;
    assert w & MAGIC_MASK == (w & 0xFF0F) & MAGIC_MASK;
    assert w' & EXIT == (w' & 0xFF0F) & EXIT;
    assert w & EXIT == (w & 0xFF0F) & EXIT;
    assert w' & SET == (w' & 0xFF0F) & SET;
    assert w & SET == (w & 0xFF0F) & SET;
    assert w' & GET == (w' & 0xFF0F) & GET;
    assert w & GET == (w & 0xFF0F) & GET;
    assert w' & STATS == (w' & 0xFF0F) & STATS;
    assert w & STATS == (w & 0xFF0F) & STATS;
    assert w' & REQUEST == (w' & 0xFF0F) & REQUEST;
    assert w & REQUEST == (w & 0xFF0F) & REQUEST;
    assert w' & RESPONSE == (w' & 0xFF0F) & RESPONSE;
    assert w & RESPONSE == (w & 0xFF0F) & RESPONSE;
  }

  /** Reading a string at or after position 2 does not see the flags word. */
  lemma UtfUnaffected(b: Bytes, b': Bytes, pos: nat)
    requires |b| == |b'| >= 2 && pos >= 2 && b[2..] == b'[2..]
    ensures ReadUtf(b', pos) == ReadUtf(b, pos)
  {
    if pos + 2 <= |b| {
      assert b[pos] == b[2..][pos - 2] == b'[pos];
      assert b[pos + 1] == b[2..][pos - 1] == b'[pos + 1];
      forall i | pos + 2 <= i < |b|
        ensures b[i] == b'[i]
      {
        assert b[i] == b[2..][i - 2] == b'[i];
      }
      var n := ReadU16(b, pos);
      assert ReadU16(b', pos) == n;
      if pos + 2 + n <= |b| {
        assert b'[pos + 2..pos + 2 + n] == b[pos + 2..pos + 2 + n];
      }
    }
  }

  /** A message with no operation bit is refused as such only once both strings have been
      read: a body too short for them fails as truncated first. */
  lemma NoOperationAfterBody(b: Bytes)
    requires |b| >= MIN_LENGTH
    requires Word(b[0], b[1]) & MAGIC_MASK == MAGIC && Word(b[0], b[1]) & 0x000F == 0
    ensures ReadUtf(b, 2).None? ==> Decode(b) == Err(Truncated)
    ensures ReadUtf(b, 2).Some? && ReadUtf(b, ReadUtf(b, 2).value.1).None? ==> Decode(b) == Err(Truncated)
    ensures ReadUtf(b, 2).Some? && ReadUtf(b, ReadUtf(b, 2).value.1).Some? ==> Decode(b) == Err(NoOperation)
  {
    ResolveOpPriority(Word(b[0], b[1]));
  }

  /** Direction: the request flag keeps key and value; the response flag alone keeps only the
      value; neither flag is refused; both flags are accepted and read as a request. */
  lemma DirectionRule(b: Bytes)
    requires |b| >= MIN_LENGTH
    requires Decode(b).Ok? || Decode(b) == Err(NoDirection)
    ensures var w := Word(b[0], b[1]);
      && (w & REQUEST == 0 && w & RESPONSE == 0 <==> Decode(b) == Err(NoDirection))
      && (w & REQUEST != 0 ==> Decode(b).Ok? && Decode(b).value.key == Some(ReadUtf(b, 2).value.0))
      && (w & REQUEST != 0 && w & RESPONSE != 0 ==> Decode(b).value.request && Decode(b).value.response)
      && (w & REQUEST == 0 && w & RESPONSE != 0 ==> Decode(b).Ok? && Decode(b).value.key == None)
      && (Decode(b).Ok? ==> Decode(b).value.val == Some(ReadUtf(b, ReadUtf(b, 2).value.1).value.0))
  {
  }

  /** A concrete case of the priority rule: flags 0x550F (request, all four operation bits)
      decodes as an exit request. */
  lemma AllOpBitsMeanExit()
    ensures Decode([0x55, 0x0F, 0, 0, 0, 0]) == Ok(Message(true, false, "exit", Some([]), Some([])))
  {
    var b: Bytes := [0x55, 0x0F, 0, 0, 0, 0];
    assert Word(b[0], b[1]) == 0x550F;
    ResolveOpPriority(0x550F);
    assert ReadUtf(b, 2) == Some(([], 4));
    assert ReadUtf(b, 4) == Some(([], 6));
  }
}
