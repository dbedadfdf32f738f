/** A client request carried through the server and back: the client's frame read by the
    server's binary path, the handler's effect on the shared store, and the reply frame read
    by the client. */
module Session {
  import opened Common
  import opened Messages
  import opened Codec
  import Lru
  import Server
  import Client

  /** A request frame that fits the length byte is handled by the server exactly as the
      client built it. */
  lemma Delivered(op: string, pair: Client.Pair, store: Server.Store, stats: Bytes)
    requires Client.Send(op, pair).Ok? && |Client.Send(op, pair).value| <= 129
    ensures Server.Binary(store, Client.Send(op, pair).value[1..], stats)
         == Server.Dispatch(store, Client.BuildRequest(op, pair).value, stats)
  {
    var frame := Client.Send(op, pair).value;
    Client.ServerReceivesRequest(op, pair, []);
    assert frame[1..] + [] == frame[1..];
  }

  /** A binary `get` whose frame fits the length byte leaves the store as one `get` of the
      key does, and the client receives the hit text with the stored value or the miss text. */
  lemma GetServed(store: Server.Store, k: Bytes, stats: Bytes)
    requires |k| <= 120
    requires Some(k) in store.index ==> |store.index[Some(k)]| <= 60000
    ensures Client.Send("get", Client.Pair(Some(k), None)).Ok?
    ensures var x := Server.Binary(store, Client.Send("get", Client.Pair(Some(k), None)).value[1..], stats);
      && x.store == Lru.Get(store, Some(k)).0
      && x.end == Server.Closed
      && |x.written| == 1
      && Client.ReadReply(x.written[0]) == Ok(Some(
           if Some(k) in store.index then Server.GetHitText(Some(k), store.index[Some(k)])
           else Server.GetMissText(Some(k))))
  {
    var pair := Client.Pair(Some(k), None);
    Delivered("get", pair, store, stats);
    var reply := Server.HandleGet(store, Some(k)).1;
    Client.ClientAcceptsReply(reply);
  }

  /** A binary `set` whose frame fits the length byte stores the pair exactly as `put` does,
      and the client receives the duplicate text when the key was stored before and the new
      text otherwise. */
  lemma SetServed(store: Server.Store, k: Bytes, v: Bytes, stats: Bytes)
    requires Lru.Valid(store)
    requires |k| + |v| <= 120
    ensures Client.Send("set", Client.Pair(Some(k), Some(v))).Ok?
    ensures var x := Server.Binary(store, Client.Send("set", Client.Pair(Some(k), Some(v))).value[1..], stats);
      && x.store == Lru.Put(store, Some(k), v).value
      && x.end == Server.Closed
      && |x.written| == 1
      && Client.ReadReply(x.written[0]) == Ok(Some(
           if Some(k) in store.index then Server.SetDuplicateText(Some(k), v)
           else Server.SetNewText(Some(k), v)))
  {
    var pair := Client.Pair(Some(k), Some(v));
    var request := Client.BuildRequest("set", pair).value;
    Delivered("set", pair, store, stats);
    Lru.PutKeepsValid(store, Some(k), v);
    var handled := Server.HandleSet(store, Some(k), v).value;
    assert Server.Dispatch(store, request, stats) == Server.Exchange(handled.0, Server.SendReply(handled.1), Server.Closed);
    Client.ClientAcceptsReply(handled.1);
  }

  /** A client that sets a pair and then gets the key, through two connections with nothing
      in between, receives a reply that contains the value it set. */
  lemma SetThenGet(store: Server.Store, k: Bytes, v: Bytes, stats: Bytes)
    requires Lru.Valid(store)
    requires |k| + |v| <= 120
    ensures Client.Send("set", Client.Pair(Some(k), Some(v))).Ok?
    ensures Client.Send("get", Client.Pair(Some(k), None)).Ok?
    ensures
      var x1 := Server.Binary(store, Client.Send("set", Client.Pair(Some(k), Some(v))).value[1..], stats);
      var x2 := Server.Binary(x1.store, Client.Send("get", Client.Pair(Some(k), None)).value[1..], stats);
      && |x2.written| == 1
      && Client.ReadReply(x2.written[0]).Ok?
      && Client.ReadReply(x2.written[0]).value.Some?
      && Contains(Client.ReadReply(x2.written[0]).value.value, v)
  {
    SetServed(store, k, v, stats);
    var s1 := Lru.Put(store, Some(k), v).value;
    Lru.PutThenGet(store, Some(k), v);
    GetServed(s1, k, stats);
    var text := Server.GetHitText(Some(k), v);
    ContainsAt(text, v, |Lit("Request Key-Value pair [") + Show(Some(k)) + Lit("] - [")|);
  }
}
