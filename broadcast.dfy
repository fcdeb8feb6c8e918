/** The application's writable side: `_write(chunk, encoding, callback)` sends each chunk
    to every peer that `peers()` returns, in that order, then calls the callback.

    `chunk.toString()` of a Buffer and `JSON.stringify` are foreign code and are parameters
    here: `decode` renders bytes, and `stringify` gives None when stringifying throws or
    when writing its result fails, both of which the `try` block catches and logs. */
module Broadcast {

  import opened Wrappers
  import Js
  import opened Connections

  /** A chunk written to the application, which is in object mode, so chunks arrive as
      written: a Buffer, or any other value (a string chunk is a `Value` holding a string). */
  datatype Chunk = Bytes(data: seq<bv8>) | Value(v: Js.JsValue)

  /** What `_write` does, in order: write a payload to a peer, log a stringify failure
      for a peer, call the callback. */
  datatype WriteEffect = Sent(peer: nat, payload: string) | ErrorLogged(peer: nat) | CallbackInvoked

  /** The string written for a chunk, or None when the `try` branch fails. */
  function Payload(chunk: Chunk, decode: seq<bv8> -> string, stringify: Js.JsValue -> Option<string>): Option<string>
  {
    match chunk
    case Bytes(data) => Some(decode(data))
    case Value(v) => if v.Str? then Some(v.s) else stringify(v)
  }

  /** `typeof chunk === 'string'`. */
  predicate IsString(chunk: Chunk)
  {
    chunk.Value? && chunk.v.Str?
  }

  /** The iterator `_write` passes to `peers()`, applied to one peer. */
  function Deliver(p: Conn, chunk: Chunk, decode: seq<bv8> -> string, stringify: Js.JsValue -> Option<string>): (e: WriteEffect)
    ensures !e.CallbackInvoked?
    ensures e.Sent? || e.ErrorLogged?
    ensures (e.Sent? || e.ErrorLogged?) && e.peer == p.id
    ensures e.ErrorLogged? <==> chunk.Value? && !chunk.v.Str? && stringify(chunk.v).None?
    ensures e.Sent? ==> Payload(chunk, decode, stringify) == Some(e.payload)
    ensures chunk.Bytes? ==> e == Sent(p.id, decode(chunk.data))
    ensures chunk.Value? && chunk.v.Str? ==> e == Sent(p.id, chunk.v.s)
  {
    match Payload(chunk, decode, stringify)
    case Some(s) => Sent(p.id, s)
    case None => ErrorLogged(p.id)
  }

  /** The effects of `_write` over the peer list `peers`. */
  function WriteEffects(peers: seq<Conn>, chunk: Chunk, decode: seq<bv8> -> string, stringify: Js.JsValue -> Option<string>): seq<WriteEffect>
  {
    seq(|peers|, i requires 0 <= i < |peers| => Deliver(peers[i], chunk, decode, stringify)) + [CallbackInvoked]
  }

  /** `_write` visits every peer exactly once, in the order `peers()` gives, sends each one
      the same payload, and calls the callback once, after every peer. A Buffer or string
      chunk always reaches every peer. */
  lemma WriteReachesEveryPeer(peers: seq<Conn>, chunk: Chunk, decode: seq<bv8> -> string, stringify: Js.JsValue -> Option<string>)
    ensures var es := WriteEffects(peers, chunk, decode, stringify);
      |es| == |peers| + 1 && es[|peers|] == CallbackInvoked &&
      (forall i :: 0 <= i < |peers| ==> !es[i].CallbackInvoked? && es[i].peer == peers[i].id) &&
      (forall i :: 0 <= i < |peers| && es[i].Sent? ==> Payload(chunk, decode, stringify) == Some(es[i].payload)) &&
      (chunk.Bytes? || IsString(chunk) ==> forall i :: 0 <= i < |peers| ==> es[i].Sent?)
  {
    var es := WriteEffects(peers, chunk, decode, stringify);
    forall i | 0 <= i < |peers| ensures es[i] == Deliver(peers[i], chunk, decode, stringify) {
    }
  }

  /** A chunk that is not a string and cannot be stringified is logged once per peer and
      sent to none. */
  lemma WriteFailureLoggedPerPeer(peers: seq<Conn>, v: Js.JsValue, decode: seq<bv8> -> string, stringify: Js.JsValue -> Option<string>)
    requires !v.Str? && stringify(v).None?
    ensures var es := WriteEffects(peers, Value(v), decode, stringify);
      forall i :: 0 <= i < |peers| ==> es[i] == ErrorLogged(peers[i].id)
  {
    var es := WriteEffects(peers, Value(v), decode, stringify);
    forall i | 0 <= i < |peers| ensures es[i] == ErrorLogged(peers[i].id) {
      assert es[i] == Deliver(peers[i], Value(v), decode, stringify);
    }
  }

  /** Over the deduplicated peers, the effects at two positions are for two sockets with
      different `address()` endpoints whenever both have one: no endpoint is written to, or
      logged for, twice. */
  lemma WriteOncePerEndpoint(all: seq<Conn>, chunk: Chunk, decode: seq<bv8> -> string, stringify: Js.JsValue -> Option<string>)
    ensures var peers := Dedup(all);
      var es := WriteEffects(peers, chunk, decode, stringify);
      forall m, n :: 0 <= m < n < |peers| && peers[m].addr.Some? && peers[n].addr.Some? ==>
        es[m].peer == peers[m].id && es[n].peer == peers[n].id &&
        peers[m].addr.value != peers[n].addr.value
  {
    var peers := Dedup(all);
    var es := WriteEffects(peers, chunk, decode, stringify);
    PeersUniqueKeys(all);
    forall m, n | 0 <= m < n < |peers| && peers[m].addr.Some? && peers[n].addr.Some?
      ensures es[m].peer == peers[m].id && es[n].peer == peers[n].id
      ensures peers[m].addr.value != peers[n].addr.value
    {
      assert es[m] == Deliver(peers[m], chunk, decode, stringify);
      assert es[n] == Deliver(peers[n], chunk, decode, stringify);
      assert Key(peers[m].addr.value) != Key(peers[n].addr.value);
    }
  }
}
