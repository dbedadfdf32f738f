# Key-value store over TCP: a Dafny model

The repository is a small key-value store with a Java client and server. A client
connection carries one request. A first byte of -1 selects the binary protocol:

- the client sends a length byte and a payload;
- the payload is a 16-bit flags word (magic `0x5400`, a request bit, a response bit and
  one operation bit: stats, set, get or exit), then the key and then the value, each as a
  2-byte big-endian length and its bytes;
- the server answers with a 4-byte length and a payload in the same format.

Any other first byte selects a line-based ASCII protocol (`set k v k v ...`,
`get k k ...`, `stats`). Both protocols share one bounded least-recently-used cache of
capacity 1000.

The model is pure and functional:

- `common.dfy`: bytes, `Option`/`Result`, big-endian helpers, Java's signed byte.
- `message.dfy` (`Messages`): the `Message` record, its validating constructor, its
  setters, and `msgToString`.
- `codec.dfy` (`Codec`): `toBinary` and `toMsg`, with every error path as a `CodecError`.
- `lru.dfy` (`Lru`): the cache. The doubly linked list between the sentinels is a
  sequence of keys, most recently used first. The hash map composed with the node values
  is a map from key to value. The counter `c` is kept as its own field.
- `lru_reference.dfy` (`LruReference`): an independent description of the cache. It
  keeps the history of touched keys and the last value written to each key. The
  resident keys are the `capacity` most recently touched ones. A simulation proof shows
  that every run of `get`/`put` agrees with it.
- `server.dfy` (`Server`): the per-connection logic of `BinaryServerThread`:
  - the mode byte;
  - the signed length byte;
  - the decode and the dispatch to the four handlers;
  - the reply frames;
  - the two ASCII token loops.
- `client.dfy` (`Client`): `running` (build, encode and frame the request; read and
  check the reply) and `main` (turn the arguments into a sequence of calls).
- `session.dfy` (`Session`): a request followed from the client's frame through the
  server's store to the client's reading of the reply.

Java strings are byte sequences, and a null string is `None`. The cache is generic in
its key type. The server instantiates it with `Option<Bytes>` keys, because a binary
`set` with only the response bit set stores its value under a null key, which
`HashMap` accepts. Two consequences of the code are worth stating:

- The server reads the frame's length byte as a signed byte, so only payloads of at most
  127 bytes arrive whole (`Client.FrameLengthSurvives`).
- A flags word with both direction bits set is read as a request
  (`Codec.DirectionRule`).

## Model

| member | source | states |
|---|---|---|
| `Messages.New` | src/Message.java:25-33 | The constructor succeeds exactly when the argument is "stats", "set", "get" or "exit" as given. It stores both flags unchanged, the lower-cased name as the operation, and null key and value. |
| `Messages.UpperCaseNameRefused` | src/Message.java:29-32 | "GET" lowers to "get", yet the constructor refuses it, because the check looks at the argument before lowering. |
| `Messages.SetRequest` | src/Message.java:86-88 | `setRequest` sets the request flag and leaves every other field alone. |
| `Messages.SetResponse` | src/Message.java:96-98 | `setResponse` sets the response flag and leaves every other field alone. |
| `Messages.SetKey` | src/Message.java:105-107 | `setKey` sets the key and leaves every other field alone. |
| `Messages.SetVal` | src/Message.java:114-116 | `setVal` sets the value and leaves every other field alone. |
| `Messages.OpSurvivesSetters` | src/Message.java:76-78 | After any sequence of setter calls on a constructed message, `getOp` still returns the constructor's argument, one of the four names. |
| `Messages.GettersSeeLastSetters` | src/Message.java:40-116 | After any sequence of setter calls, `getKey`, `getVal`, `isRequest` and `isResponse` each return the argument of the last call of the matching setter. A field whose setter was never called keeps its earlier value. |
| `Messages.MsgToString` | src/Message.java:123-132 | The text starts with "Operation: " and contains the value. For any operation other than stats it also contains the upper-cased operation and the key. |
| `Messages.StatsTextIgnoresKey` | src/Message.java:124-128 | A stats message's text does not depend on its key. |
| `Codec.WriteUtf` | src/BinaryCoder.java:67-68 | A string is written exactly when it is non-null and at most 65535 bytes long, as its 2-byte big-endian length followed by its bytes. |
| `Codec.Encode` | src/BinaryCoder.java:38-75 | Encoding succeeds exactly when the operation is one of the four names and key and value are writable. An unknown name gives the unsupported-operation error. The result is 6 + key + value bytes long: the flags word (magic, a direction bit for each flag, bits 4-7 clear, exactly the operation's bit), then each string as length and bytes. |
| `Codec.EncodedFlags` | src/BinaryCoder.java:44-66 | The flags word written with `writeShort` reads back as magic OR the flags' direction bits OR the single operation bit. |
| `Codec.ReadUtf` | src/BinaryCoder.java:118-119 | `readUTF` succeeds exactly when the 2-byte length and that many bytes are present, and returns exactly those bytes and the position after them. |
| `Codec.ResolveOpPriority` | src/BinaryCoder.java:105-117 | With several operation bits set, the later test wins: exit over set over get over stats. No operation bit means no operation. |
| `Codec.Decode` | src/BinaryCoder.java:84-137 | Fewer than 2 bytes: too short. Wrong magic: bad magic. Decoding succeeds exactly when the magic matches, both length-prefixed strings are present, at least one operation bit is set and at least one direction bit is set. The value is the second string, and for a request the key is the first. On success the operation is the one the priority rule picks, each flag equals its bit, at least one flag is set, the key is present exactly for requests, and the value is always present. |
| `Codec.RoundTrip` | src/BinaryCoder.java:38-137 | Take a message with one of the four names, at least one direction flag, and writable key and value. Decoding its encoding, whatever bytes follow, gives back both flags, the operation and the value, and the key when the request flag is set. |
| `Codec.BadMagicWhateverFollows` | src/BinaryCoder.java:91-95 | A flags word whose top six bits are not the magic is refused as bad magic, whatever follows it. |
| `Codec.UnusedBitsIgnored` | src/BinaryCoder.java:98-103 | Two inputs that differ only in bits 4 to 7 of the flags word decode alike. |
| `Codec.NoOperationAfterBody` | src/BinaryCoder.java:118-125 | With no operation bit set, a body too short for both strings fails as truncated. Only a complete body fails for lack of an operation. |
| `Codec.DirectionRule` | src/BinaryCoder.java:127-134 | The request bit keeps both key and value. The response bit alone keeps only the value. Neither bit is refused. Both bits are accepted, with both flags true. |
| `Codec.AllOpBitsMeanExit` | src/BinaryCoder.java:106-117 | Flags `0x550F` (request and all four operation bits) decode as an exit request. |
| `Lru.New` | src/LRUCache.java:26-34 | A new cache keeps the capacity it was given, with an empty list, an empty map and a count of 0. It is consistent, and valid when its capacity is at least 1. |
| `Lru.RemoveKey` | src/LRUCache.java:87-92 | Unlinking a node removes exactly its key from the list. A key not on the list leaves it unchanged. |
| `Lru.RemoveKeyUnlinks` | src/LRUCache.java:87-92 | On a list without repeats, removing the key at position `i` leaves the keys before it and after it, in their order. |
| `Lru.Get` | src/LRUCache.java:42-49 | `get` returns the stored value or null. Map, count and capacity are unchanged. A miss leaves the order alone. A hit moves the key to the front and keeps the others in order. |
| `Lru.Put` | src/LRUCache.java:58-80 | `put` faults exactly when the key is new, the count would exceed the capacity and the list is empty (`popEnd` meets the head sentinel). Otherwise the key is at the front, mapped to the new value. |
| `Lru.PutEffect` | src/LRUCache.java:62-79 | An existing key: the key set and the count stay, and the other keys keep their values and order. A new key with room: it goes in front and the count grows by one. A new key at capacity: the last key on the list leaves list and map, every other entry stays, and the count stays. |
| `Lru.GetKeepsValid` | src/LRUCache.java:42-49 | `get` keeps list, map and counter in agreement and the count within capacity. |
| `Lru.PutKeepsValid` | src/LRUCache.java:58-80 | With capacity at least 1, `put` never faults. It keeps list, map and counter in agreement, so the count never exceeds the capacity. |
| `Lru.GetRecency` | src/LRUCache.java:100-115 | `lastUsed` (`removeNode` then `addNode`, modelled by `Lru.LastUsed` and `Lru.AddNode`) on a hit makes the order the key followed by the old order without it. A miss changes nothing. |
| `Lru.GetIdempotent` | src/LRUCache.java:42-49 | Two consecutive `get`s of a key leave the state one `get` leaves. |
| `Lru.PutThenGet` | src/LRUCache.java:58-80 | On a valid cache, a `get` right after `put(k, v)` returns `v`. |
| `Lru.EvictsLeastRecentlyUsed` | src/LRUCache.java:66-71 | At capacity, a new key evicts exactly the key next to the end sentinel. That key leaves both map and list, every other entry keeps its value, and the count equals the capacity. |
| `LruReference.RecencyDistinct` | src/LRUCache.java:100-115 | The recency order of a history lists each touched key exactly once. |
| `LruReference.StepDescribed` | src/LRUCache.java:42-80 | A single `get` or `put` keeps the cache equal to the reference description of its history. A `get` answers what the history says. |
| `LruReference.RunDescribed` | src/LRUCache.java:42-127 | Any sequence of `get`s and `put`s on a cache of positive capacity runs without fault. Afterwards the list holds the `capacity` most recently touched keys, most recent first, each mapped to the value last written to it. |
| `LruReference.FillingEvictsFirst` | src/LRUCache.java:66-71 | Putting capacity + 1 distinct keys into a new cache leaves exactly the last `capacity` of them; the first is gone. |
| `Server.InitialStore` | src/Server.java:262-264 | The shared store starts as an empty, valid cache of capacity 1000. |
| `Server.SelectMode` | src/Server.java:36-43 | The binary path is taken exactly when the first byte is -1 (`0xFF`). |
| `Server.ReadPayload` | src/Server.java:65-71 | The length byte is read signed. A byte of `0x80` or more is a negative length. Otherwise exactly that many following bytes are the payload, or the stream ends early. |
| `Server.Reply` | src/Server.java:242-245 | Every reply is a response (not a request) with the request's operation and key " ". |
| `Server.SendReply` | src/Server.java:246-250 | A reply frame is written exactly when the reply encodes. It is a 4-byte big-endian length followed by exactly that many encoded bytes. |
| `Server.HandleGet` | src/Server.java:175-204 | The store ends as after one `get` of the key. The reply carries the hit text with the stored value, or the "does not exist" text. |
| `Server.HandleSet` | src/Server.java:215-240 | The store ends exactly as after `put(k, v)`. The reply uses the duplicate wording exactly when the key was stored before. |
| `Server.PutAfterGet` | src/Server.java:218-228 | A `get` followed by a `put` of the same key leaves the state the `put` alone leaves. |
| `Server.Dispatch` | src/Server.java:74-85 | Each operation goes to its own handler. Stats and exit leave the store alone and reply with their fixed texts, and exit then shuts the server down. A get writes the `get` handler's reply frame and leaves its store. A set writes the `set` handler's reply frame and leaves its store. When the cache faults, a set aborts with nothing written. An unknown operation writes nothing. |
| `Server.Binary` | src/Server.java:59-90 | A failed length read or decode leaves the store untouched and writes nothing. A payload that decodes is dispatched as exactly the decoded message. |
| `Server.BinaryKeepsValid` | src/Server.java:59-90 | A binary exchange keeps a valid store valid and never meets the cache's fault. |
| `Server.SetPairs` | src/Server.java:111-123 | A completed ASCII `set` writes one line per pair plus one for a trailing key. |
| `Server.SetPairsLines` | src/Server.java:112-122 | Those lines are the put report of each full pair, in order, then the error line if a key is left over. |
| `Server.SetPairsRuns` | src/Server.java:112-122 | The store after an ASCII `set` is the cache after one `put` per full pair, in order; the trailing key is never put. The loop stops early exactly when one of those puts faults. |
| `Server.SetPairsKeepsValid` | src/Server.java:112-122 | On a valid store an ASCII `set` never faults and keeps the store valid. |
| `Server.GetLine` | src/Server.java:126-131 | One key of an ASCII `get` leaves the store as one `get` does. It writes the hit line with the stored value or the "not found" line. |
| `Server.GetEach` | src/Server.java:124-133 | An ASCII `get` writes one line per key and changes only the recency order, not the map, count or capacity. |
| `Server.GetEachLines` | src/Server.java:125-132 | Line `j` reports key `j` with its value as stored before the loop, or as not found. |
| `Server.GetEachRuns` | src/Server.java:125-132 | The store after an ASCII `get` is the cache after one `get` per key, in order. |
| `Server.GetEachKeepsValid` | src/Server.java:125-132 | An ASCII `get` keeps a valid store valid. |
| `Server.AsciiSetLoop` | src/Server.java:112-122 | The `for` loop over `i = 1, 3, 5, ...` computes exactly the pairwise outcome described by `SetPairs`. |
| `Server.AsciiGetLoop` | src/Server.java:125-132 | The `for` loop over `i = 1, 2, 3, ...` computes exactly the per-key outcome described by `GetEach`. |
| `Server.Ascii` | src/Server.java:109-137 | The first token selects the set loop, the get loop or the stats line. Any other first token writes nothing, keeps the store and closes. No token at all aborts. |
| `Server.Connection` | src/Server.java:31-52 | An empty stream ends the connection. A first byte of -1 runs the binary exchange on the rest. Any other first byte runs the ASCII path on the line's tokens. |
| `Client.BuildRequest` | src/Client.java:41-58 | Every request is a request and not a response. A get carries its key and " ", a set its key and value, and stats and exit " " twice. An unknown operation is refused. |
| `Client.Frame` | src/Client.java:63-65 | The frame is `0xFF`, then the payload length modulo 256 (the Java byte cast), then the payload. |
| `Client.Send` | src/Client.java:41-66 | An unknown operation is refused. A valid operation succeeds whenever the strings it actually writes are writable: the key for get and set, and the value for set. Stats and exit succeed with no key or value at all. On success the frame is `0xFF`, the payload length as a Java byte, then the encoding of the built request, and that payload decodes to exactly the built request. |
| `Client.ReadReply` | src/Client.java:71-81 | A reply is a 4-byte signed length, then that many bytes, decoded. Fewer than 4 bytes, or fewer payload bytes than the length, is end of stream. A negative length is refused. A payload that does not decode is refused with the decoder's error. A payload that decodes as a response hands on exactly its value. One that decodes as anything else is the "Error response!" failure. |
| `Client.FrameLengthSurvives` | src/Client.java:64 | Payloads of at most 127 bytes reach the server whole. A length whose low byte is 128 or more is refused as negative. A longer payload whose low byte is below 128 arrives cut to that many bytes. |
| `Client.ServerReceivesRequest` | src/Client.java:62-66 | A frame that fits the signed length byte is decoded by the server into exactly the request the client built, whatever follows it. |
| `Client.ClientAcceptsReply` | src/Client.java:71-81 | Every reply frame the server writes is accepted, and the client receives the reply's value. |
| `Client.Command` | src/Client.java:116-122 | The second argument, lower-cased, picks get (also for multiget), set (also for multiset), stats or exit. Anything else is refused. |
| `Client.CommandIgnoresCase` | src/Client.java:116 | The operation argument is matched regardless of ASCII case. |
| `Client.PlanCalls` | src/Client.java:107-153 | Fewer than two arguments exit with -1. A get sends one call per remaining argument, keys in order. A set sends one call per full pair, and a trailing key exits with -1 after the earlier pairs were sent. Stats and exit make one call with no key or value. |
| `Session.Delivered` | src/Client.java:62-66 | A request frame that fits the length byte is dispatched by the server exactly as the client built it. |
| `Session.GetServed` | src/Server.java:175-204 | For a key of at most 120 bytes whose stored value, if any, is at most 60000 bytes: a client `get` leaves the store as one cache `get` does. The client receives the hit text with the stored value, or the miss text. |
| `Session.SetServed` | src/Server.java:215-240 | On a valid store, for a pair with key and value together at most 120 bytes (so the frame fits the signed length byte), a client `set` stores the pair exactly as `put` does. The client receives the duplicate or the new wording according to whether the key was stored before. |
| `Session.SetThenGet` | src/Client.java:33-98 | On a valid store, for a pair with key and value together at most 120 bytes, a `set` of the pair followed by a `get` of its key, each over its own connection, gives the client a reply that contains the value. |

## Left out

- Sockets, streams, the accept loop and the thread per connection (src/Server.java:260-317): the model handles one connection at a time on a given store. The store is shared without synchronisation, so only sequential use is modelled.
- `System.exit`: the server's exit becomes the `Shutdown` end of an exchange, and the client's exits become `Plan` outcomes.
- `store.stats()` is called by the server but not defined by `LRUCache`. The stats text is a parameter.
- ASCII line acquisition (src/Server.java:101-109): the reader buffering, the extra `readByte` and `split(" ")`. The model starts from the token list.
- Java's modified UTF-8: strings are byte sequences, and a length of at most 65535 bytes is the only limit on them.
- The unused size constants `keySize` and `valSzie` of `Message`: they are never enforced.
- `toLowerCase`/`toUpperCase` are modelled on ASCII letters only.
- Printing and logging. Reply wording is modelled only where it separates hit from miss and duplicate from new.
- src/TestClient.java (a timing driver) and src/MessageCoder.java (an interface with no logic) are not part of this model.
- The host-name argument of the client and the port are not modelled.
- Lru.Put: on the fault, the source has already incremented the counter `c` before `popEnd` throws. The model reports only the fault and not that half-updated state.
- Session.GetServed: promises a reply only for a stored value of at most 60000 bytes. An ASCII `set` can store a value long enough that the hit text exceeds 65535 bytes. A binary `get` of such a key makes `toBinary` fail, and no reply is written (`Server.SendReply` yields no frame). Values between these two lengths are not covered by the lemma.
- Client.ReadReply: a negative reply length makes `new byte[length]` throw `NegativeArraySizeException`. `running` does not catch that, so `main` ends and skips its remaining calls. The model reports it as an ordinary `NegativeLength` failure of that one call, and `Client.PlanCalls` still lists every call. The modelled server never writes a negative length, since `Server.SendReply` writes the encoding's own length.
- Codec.Encode: the unsupported-operation error cannot arise from messages the constructor produced. It is modelled for messages built field by field.
