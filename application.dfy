/** The `Application` object: a peer-to-peer node that keeps inbound and outbound socket
    lists, a middleware stack and its options, dials seeds to stay in the network, and
    broadcasts what is written to it to every peer.

    Sockets are records identified by `Conn.id`. A socket that `connect` opens is given the
    identity `nextSocket`; `dials` records every `net.connect` call in order. Events
    (`peerConnected`, `end`, `error`), the five-second timer and the streams themselves
    are not part of this model; the operations they trigger are the public methods here. */
module App {

  import opened Wrappers
  import opened Js
  import Options
  import opened Connections
  import opened Maintainer
  import opened Middleware
  import opened Broadcast

  class Application {
    /** The own properties of the options object; reads fall back to the defaults. */
    var options: map<string, JsValue>
    var inbound: seq<Conn>
    var outbound: seq<Conn>
    /** The middleware factories, in registration order. */
    var stack: seq<Factory>
    /** Every `net.connect(port, host)` call made, in order. */
    var dials: seq<Dial>
    /** The identity the next dialled socket receives. */
    var nextSocket: nat

    /** The stack always starts with the passthrough entry it was created with, and every
        tracked socket is a distinct object: identities are handed out by `nextSocket`
        and none is tracked twice, in either list or across them. */
    ghost predicate Valid()
      reads this`stack, this`inbound, this`outbound, this`nextSocket
    {
      |stack| >= 1 && stack[0] == Passthrough && IdsFresh(inbound + outbound, nextSocket)
    }

    /** The object `new Application(options)` builds before its first tick: the given
        options over the defaults, empty connection lists, a stack holding only the
        passthrough entry. */
    constructor (userOptions: map<string, JsValue>)
      ensures options == userOptions
      ensures inbound == [] && outbound == []
      ensures stack == [Passthrough]
      ensures dials == [] && nextSocket == 0
      ensures Valid()
    {
      options := userOptions;
      inbound := [];
      outbound := [];
      stack := [Passthrough];
      dials := [];
      nextSocket := 0;
    }

    /** `new Application(options)`: build the object, then run the first tick, which
        throws when the `seeds` option is not an array. With no connection yet, the
        first tick dials every seed (unless a threshold is at most zero). */
    static method New(userOptions: map<string, JsValue>) returns (r: Result<Application, JsError>)
      ensures TickTargets(userOptions, []).Failure? ==> r == Failure(TickTargets(userOptions, []).error)
      ensures TickTargets(userOptions, []).Success? ==>
        var targets := TickTargets(userOptions, []).value;
        r.Success? && fresh(r.value) && r.value.Valid() &&
        r.value.options == userOptions && r.value.inbound == [] && r.value.stack == [Passthrough] &&
        r.value.outbound == DialingRun(0, |targets|) &&
        r.value.dials == DialsFor(targets, 0) && r.value.nextSocket == |targets|
    {
      var app := new Application(userOptions);
      var thrown := app.EnterNetwork();
      assert DialingRun(0, 0) == [];
      assert DialsFor([], 0) == [];
      if thrown.Some? {
        r := Failure(thrown.value);
      } else {
        r := Success(app);
      }
    }

    /** `use(middleware)`: registers each function of the argument in order, calling its
        `_plugin` hook first when it has one, and throws a TypeError at the first entry
        that is not a function, leaving the functions before it registered. */
    method Use(arg: UseArg) returns (thrown: Option<JsError>, events: seq<UseEvent>)
      modifies this`stack
      ensures stack == old(stack) + RunUse(Normalize(arg)).registered
      ensures thrown == RunUse(Normalize(arg)).error
      ensures events == RunUse(Normalize(arg)).events
      ensures old(Valid()) ==> Valid()
    {
      thrown, events := Register(Normalize(arg));
    }

    /** `middleware.forEach(...)` in `use`: push each function, after calling its
        `_plugin` hook, until the first entry that is not a function. */
    method Register(wares: seq<Ware>) returns (thrown: Option<JsError>, events: seq<UseEvent>)
      modifies this`stack
      ensures stack == old(stack) + RunUse(wares).registered
      ensures thrown == RunUse(wares).error
      ensures events == RunUse(wares).events
    {
      ghost var stack0 := stack;
      ghost var pushed: seq<Factory> := [];
      events := [];
      var i := 0;
      while i < |wares|
        invariant 0 <= i <= |wares|
        invariant stack == stack0 + pushed
        invariant RunUse(wares).registered == pushed + RunUse(wares[i..]).registered
        invariant RunUse(wares).events == events + RunUse(wares[i..]).events
        invariant RunUse(wares).error == RunUse(wares[i..]).error
      {
        var ware := wares[i];
        if ware.NotFunction? {
          thrown := Some(TypeError("Middleware must be a function"));
          return;
        }
        var f := ware.factory;
        UseStep(wares, i, pushed, events);
        if f.plugin {
          events := events + [PluginCalled(f)];
        }
        stack := stack + [f];
        events := events + [Pushed(f)];
        AppendAssoc(stack0, pushed, f);
        pushed := pushed + [f];
        i := i + 1;
      }
      thrown := None;
      assert wares[i..] == [];
      assert pushed + [] == pushed && events + [] == events;
    }

    /** `get(key)`: the stored option when truthy, null otherwise. */
    function Get(key: string): JsValue
      reads this`options
    {
      Options.Get(options, key)
    }

    /** `set(key, value)`: stores the option and returns the value; every other option
        reads as before. */
    method Set(key: string, value: JsValue) returns (r: JsValue)
      modifies this`options
      ensures options == Options.Set(old(options), key, value)
      ensures r == value
      ensures Get(key) == (if Truthy(value) then value else Null)
      ensures forall k :: k != key ==> Get(k) == old(Get(k))
    {
      options := options[key := value];
      r := value;
    }

    /** `connect(port, host)`: dials, and tracks the new socket, still connecting, at the
        end of the outbound list. */
    method Connect(port: JsValue, host: string) returns (socket: nat)
      requires Valid()
      modifies this`outbound, this`dials, this`nextSocket
      ensures Valid()
      ensures socket == old(nextSocket)
      ensures outbound == old(outbound) + [Dialing(socket)]
      ensures dials == old(dials) + [Dial(socket, port, host)]
      ensures nextSocket == old(nextSocket) + 1
    {
      socket := nextSocket;
      nextSocket := nextSocket + 1;
      dials := dials + [Dial(socket, port, host)];
      IdsFreshInsert(inbound + outbound, [], Dialing(socket), socket);
      assert inbound + (outbound + [Dialing(socket)]) == inbound + outbound + [Dialing(socket)] + [];
      outbound := outbound + [Dialing(socket)];
    }

    /** The socket `socket` finishes connecting (the transport sets its local address,
        descriptor and remote end), and the `connect` handler of `connect` processes it. */
    method OnConnect(socket: nat, local: Addr, fd: int, remoteAddress: string, remotePort: int)
      returns (tail: Instance, trace: seq<PipelineEvent>)
      requires Valid()
      modifies this`outbound
      ensures Valid()
      ensures outbound == Establish(old(outbound), socket, local, fd, remoteAddress, remotePort)
      ensures forall i :: 0 <= i < |old(outbound)| && old(outbound)[i].id == socket && old(outbound)[i].connecting ==>
        |Active(outbound)| == |Active(old(outbound))| + 1
      ensures tail == Instance(|stack| - 1, stack[|stack| - 1], socket)
      ensures trace == InitTrace(Instantiate(stack, socket)) + [Piped(socket, Instance(0, Passthrough, socket))]
    {
      EstablishIdsFresh(inbound, outbound, socket, local, fd, remoteAddress, remotePort, nextSocket);
      IdsFreshSplit(inbound, outbound, nextSocket);
      forall i | 0 <= i < |outbound| && outbound[i].id == socket && outbound[i].connecting
        ensures |Active(Establish(outbound, socket, local, fd, remoteAddress, remotePort))| == |Active(outbound)| + 1
      {
        EstablishActivates(outbound, i, local, fd, remoteAddress, remotePort);
      }
      outbound := Establish(outbound, socket, local, fd, remoteAddress, remotePort);
      tail, trace := Process(socket);
    }

    /** `peers(iteratee)`: the sockets of inbound followed by outbound that survive the
        deduplicating filter, and `iteratee` applied to each of them, in order, when
        it is a function. */
    method Peers<E>(iteratee: Option<Conn -> E>) returns (everyone: seq<Conn>, calls: seq<E>)
      ensures everyone == Dedup(inbound + outbound)
      ensures iteratee.Some? ==>
        |calls| == |everyone| && forall i :: 0 <= i < |calls| ==> calls[i] == iteratee.value(everyone[i])
      ensures iteratee.None? ==> calls == []
    {
      everyone := FilterPeers(inbound + outbound);
      calls := [];
      if iteratee.Some? {
        calls := ForEach(everyone, iteratee.value);
      }
    }

    /** `[].concat(inbound).concat(outbound).filter(...)` with the closure arrays
        `handles` and `addresses` of `peers()`. */
    static method FilterPeers(all: seq<Conn>) returns (everyone: seq<Conn>)
      ensures everyone == Dedup(all)
    {
      var handles: seq<Fd> := [];
      var addresses: seq<string> := [];
      everyone := [];
      var i := 0;
      while i < |all|
        invariant 0 <= i <= |all|
        invariant everyone + DedupFrom(all[i..], Seen(handles, addresses)) == Dedup(all)
      {
        ghost var before := Seen(handles, addresses);
        var sock := all[i];
        var keep;
        keep, handles, addresses := FilterVisit(sock, handles, addresses);
        PeersStep(all, i, everyone, before, keep, Seen(handles, addresses));
        if keep {
          everyone := everyone + [sock];
        }
        i := i + 1;
      }
      assert all[i..] == [];
      assert everyone + [] == everyone;
    }

    /** `everyone.forEach(iteratee)`: the iteratee applied to each element, in order. */
    static method ForEach<E>(everyone: seq<Conn>, iteratee: Conn -> E) returns (calls: seq<E>)
      ensures |calls| == |everyone|
      ensures forall i :: 0 <= i < |calls| ==> calls[i] == iteratee(everyone[i])
    {
      calls := [];
      var j := 0;
      while j < |everyone|
        invariant 0 <= j <= |everyone|
        invariant |calls| == j
        invariant forall k :: 0 <= k < j ==> calls[k] == iteratee(everyone[k])
      {
        calls := calls + [iteratee(everyone[j])];
        j := j + 1;
      }
    }

    /** The filter callback of `peers()` on one socket, with the closure arrays before
        and after the call. */
    static method FilterVisit(sock: Conn, handles: seq<Fd>, addresses: seq<string>)
      returns (keep: bool, handles': seq<Fd>, addresses': seq<string>)
      ensures Verdict(keep, Seen(handles', addresses')) == Visit(sock, Seen(handles, addresses))
    {
      handles', addresses' := handles, addresses;
      if sock.handle.Some? {
        var fdesc := sock.handle.value;
        if FdUndefined in handles' {
          // the lookup is of `url`, still undefined here
          return false, handles', addresses';
        }
        handles' := handles' + [fdesc];
      }
      if sock.addr.Some? {
        var url := Key(sock.addr.value);
        if url in addresses' {
          return false, handles', addresses';
        }
        addresses' := addresses' + [url];
      }
      keep := true;
    }

    /** `list.forEach((sock, i) => { if (sock === socket) list.splice(i, 1) })` on one
        list: the forEach visits the positions below the list's starting length that
        still exist. */
    static method SpliceOut(list: seq<Conn>, socket: nat) returns (r: seq<Conn>)
      ensures r == Connections.Cleanup(list, socket)
    {
      r := list;
      var n := |list|;
      var i := 0;
      while i < n
        invariant 0 <= i <= n
        invariant |r| <= n
        invariant var m := if i <= |r| then i else |r|;
          r[..m] + Connections.Cleanup(r[m..], socket) == Connections.Cleanup(list, socket)
      {
        if i < |r| && r[i].id == socket {
          CleanupStep(r, i, socket);
          r := r[..i] + r[i + 1..];
        } else if i < |r| {
          assert r[i..][0] == r[i] && r[i..][1..] == r[i + 1..];
          assert r[..i + 1] == r[..i] + [r[i]];
        }
        i := i + 1;
      }
      assert r[|r|..] == [];
      assert r[..|r|] == r;
    }

    /** `_cleanup(socket)`: the inbound and outbound lists after the splicing loop runs
        over each. */
    method Cleanup(socket: nat)
      requires Valid()
      modifies this`inbound, this`outbound
      ensures Valid()
      ensures inbound == Connections.Cleanup(old(inbound), socket)
      ensures outbound == Connections.Cleanup(old(outbound), socket)
      ensures forall i :: 0 <= i < |inbound| ==> inbound[i].id != socket
      ensures forall i :: 0 <= i < |outbound| ==> outbound[i].id != socket
    {
      CleanupKeepsValid(inbound, outbound, socket, nextSocket);
      inbound := SpliceOut(inbound, socket);
      outbound := SpliceOut(outbound, socket);
    }

    /** `_enterNetwork()`: one tick of the seed maintainer. It dials, in order, the seeds
        `TickTargets` names, as fresh connecting outbound sockets, or throws the TypeError
        of a `seeds` option that is not an array before dialling anything. */
    method EnterNetwork() returns (thrown: Option<JsError>)
      requires Valid()
      modifies this`outbound, this`dials, this`nextSocket
      ensures Valid()
      ensures TickTargets(options, old(outbound)).Failure? ==>
        thrown == Some(TickTargets(options, old(outbound)).error) &&
        outbound == old(outbound) && dials == old(dials) && nextSocket == old(nextSocket)
      ensures TickTargets(options, old(outbound)).Success? ==>
        var targets := TickTargets(options, old(outbound)).value;
        thrown == None &&
        outbound == old(outbound) + DialingRun(old(nextSocket), |targets|) &&
        dials == old(dials) + DialsFor(targets, old(nextSocket)) &&
        nextSocket == old(nextSocket) + |targets|
    {
      var active := Active(outbound);
      if LessOrEqual(Options.Lookup(options, "maxPeers"), |active|) {
        return None;
      }
      if LessOrEqual(Options.Lookup(options, "minPeers"), |active|) {
        return None;
      }
      var seedsValue := Options.Lookup(options, "seeds");
      if !seedsValue.StrArray? {
        return Some(TypeError("seeds.forEach is not a function"));
      }
      DialSeeds(seedsValue.items, active);
      thrown := None;
    }

    /** `seeds.forEach(...)` in a tick: dials, in order, each seed that the active
        snapshot does not cause to be skipped. */
    method DialSeeds(seeds: seq<string>, active: seq<Conn>)
      requires Valid()
      modifies this`outbound, this`dials, this`nextSocket
      ensures Valid()
      ensures var targets := SeedsToDial(seeds, active);
        outbound == old(outbound) + DialingRun(old(nextSocket), |targets|) &&
        dials == old(dials) + DialsFor(targets, old(nextSocket)) &&
        nextSocket == old(nextSocket) + |targets|
    {
      ghost var out0, dials0, base := outbound, dials, nextSocket;
      ghost var dialed: seq<string> := [];
      var k := 0;
      while k < |seeds|
        invariant 0 <= k <= |seeds|
        invariant dialed + SeedsToDial(seeds[k..], active) == SeedsToDial(seeds, active)
        invariant outbound == out0 + DialingRun(base, |dialed|)
        invariant dials == dials0 + DialsFor(dialed, base)
        invariant nextSocket == base + |dialed|
        invariant Valid()
      {
        var seed := seeds[k];
        var dialedNow := DialSeed(seed, active);
        DialedStep(dialed, seeds, k, active, !dialedNow);
        if dialedNow {
          DialRecordsStep(out0, dials0, base, dialed, seed);
          dialed := dialed + [seed];
        }
        k := k + 1;
      }
      assert seeds[k..] == [];
      assert dialed + [] == dialed;
    }

    /** The seeds callback for one seed: unless the active snapshot rules it out, connects
        to the seed's host and port. */
    method DialSeed(seed: string, active: seq<Conn>) returns (dialed: bool)
      requires Valid()
      modifies this`outbound, this`dials, this`nextSocket
      ensures Valid()
      ensures dialed == !SkipsSeed(SeedHost(seed), SeedPort(seed), active)
      ensures dialed ==> (outbound == old(outbound) + [Dialing(old(nextSocket))] &&
                          dials == old(dials) + [Dial(old(nextSocket), SeedPort(seed), SeedHost(seed))] &&
                          nextSocket == old(nextSocket) + 1)
      ensures !dialed ==> outbound == old(outbound) && dials == old(dials) && nextSocket == old(nextSocket)
    {
      var host := SeedHost(seed);
      var port := SeedPort(seed);
      var skip := Skips(host, port, active);
      dialed := !skip;
      if dialed {
        var socket := Connect(port, host);
      }
    }

    /** The loop over the active snapshot in the seeds callback: whether it returns early,
        leaving the seed undialled. */
    static method Skips(host: string, port: JsValue, active: seq<Conn>) returns (skip: bool)
      ensures skip == SkipsSeed(host, port, active)
    {
      var a := 0;
      while a < |active|
        invariant 0 <= a <= |active|
        invariant SkipsSeed(host, port, active) == SkipsSeed(host, port, active[a..])
      {
        assert active[a..][0] == active[a] && active[a..][1..] == active[a + 1..];
        var remoteAddr := active[a].remoteAddress;
        var remotePort := active[a].remotePort;
        if host == "localhost" || remoteAddr == "127.0.0.1" {
          return true;
        }
        if host == remoteAddr && StrictEquals(port, Num(remotePort)) {
          return true;
        }
        a := a + 1;
      }
      assert active[a..] == [];
      return false;
    }

    /** `_initMiddlewareStack(socket)`: one instance per stack entry, in order, wired into
        a fresh pipeline. */
    method InitMiddlewareStack(socket: nat) returns (instances: seq<Instance>, trace: seq<PipelineEvent>)
      ensures instances == Instantiate(stack, socket)
      ensures trace == InitTrace(instances)
    {
      instances := [];
      var i := 0;
      while i < |stack|
        invariant 0 <= i <= |stack|
        invariant instances == Instantiate(stack, socket)[..i]
      {
        assert Instantiate(stack, socket)[..i + 1] == Instantiate(stack, socket)[..i] + [Instance(i, stack[i], socket)];
        instances := instances + [Instance(i, stack[i], socket)];
        i := i + 1;
      }
      assert instances == Instantiate(stack, socket);
      trace := CreatedEvents(instances);
      var j := 0;
      while j < |instances|
        invariant 0 <= j <= |instances|
        invariant trace == CreatedEvents(instances) + Wiring(instances[..j])
      {
        var ware := instances[j];
        assert instances[..j + 1][..j] == instances[..j] && instances[..j + 1][j] == ware;
        trace := trace + [Added(ware)];
        if ware.factory.instanceInit {
          trace := trace + [InitCalled(ware)];
        }
        j := j + 1;
      }
      assert instances[..j] == instances;
      trace := trace + [Opened];
    }

    /** `_process(socket)`: builds the socket's pipeline, pipes the socket into the first
        instance, which is the passthrough entry, and returns the last instance. */
    method Process(socket: nat) returns (tail: Instance, trace: seq<PipelineEvent>)
      requires Valid()
      ensures tail == Instance(|stack| - 1, stack[|stack| - 1], socket)
      ensures trace == InitTrace(Instantiate(stack, socket)) + [Piped(socket, Instance(0, Passthrough, socket))]
    {
      var instances, initTrace := InitMiddlewareStack(socket);
      trace := initTrace + [Piped(socket, instances[0])];
      tail := instances[|instances| - 1];
    }

    /** `_handleInbound(socket)` for a socket the server has just accepted, which reports
        the given local address, descriptor and remote end: tracks it, as a new object, at
        the end of the inbound list and processes it. */
    method HandleInbound(addr: Option<Addr>, handle: Option<Fd>, remoteAddress: string, remotePort: int)
      returns (socket: nat, tail: Instance, trace: seq<PipelineEvent>)
      requires Valid()
      modifies this`inbound, this`nextSocket
      ensures Valid()
      ensures socket == old(nextSocket) && nextSocket == old(nextSocket) + 1
      ensures inbound == old(inbound) + [Conn(socket, false, addr, handle, remoteAddress, remotePort)]
      ensures tail == Instance(|stack| - 1, stack[|stack| - 1], socket)
      ensures trace == InitTrace(Instantiate(stack, socket)) + [Piped(socket, Instance(0, Passthrough, socket))]
    {
      socket := nextSocket;
      var s := Conn(socket, false, addr, handle, remoteAddress, remotePort);
      IdsFreshInsert(inbound, outbound, s, socket);
      nextSocket := nextSocket + 1;
      inbound := inbound + [s];
      tail, trace := Process(socket);
    }

    /** `_write(chunk, encoding, callback)`: the chunk goes to every peer `peers()`
        returns, in order, then the callback runs. */
    method Write(chunk: Chunk, decode: seq<bv8> -> string, stringify: JsValue -> Option<string>)
      returns (effects: seq<WriteEffect>)
      ensures effects == WriteEffects(Dedup(inbound + outbound), chunk, decode, stringify)
    {
      var everyone, calls := Peers(Some((p: Conn) => Deliver(p, chunk, decode, stringify)));
      effects := calls + [CallbackInvoked];
      assert calls == seq(|everyone|, i requires 0 <= i < |everyone| => Deliver(everyone[i], chunk, decode, stringify));
    }
  }

  /** One callback call of `peers()` keeps the loop's description of the result. */
  lemma PeersStep(all: seq<Conn>, i: nat, everyone: seq<Conn>, before: Seen, keep: bool, after: Seen)
    requires i < |all| && Verdict(keep, after) == Visit(all[i], before)
    requires everyone + DedupFrom(all[i..], before) == Dedup(all)
    ensures (if keep then everyone + [all[i]] else everyone) + DedupFrom(all[i + 1..], after) == Dedup(all)
  {
    assert all[i..][0] == all[i] && all[i..][1..] == all[i + 1..];
    assert DedupFrom(all[i..], before) == (if keep then [all[i]] else []) + DedupFrom(all[i + 1..], after);
  }

  lemma AppendAssoc<T>(a: seq<T>, b: seq<T>, x: T)
    ensures (a + b) + [x] == a + (b + [x])
  {
  }

  /** One registration of `use` on a function: it is pushed after its `_plugin` call. */
  lemma UseStep(wares: seq<Ware>, i: nat, pushed: seq<Factory>, events: seq<UseEvent>)
    requires i < |wares| && wares[i].Fn?
    ensures var f, rest := wares[i].factory, RunUse(wares[i + 1..]);
      pushed + RunUse(wares[i..]).registered == (pushed + [f]) + rest.registered &&
      events + RunUse(wares[i..]).events ==
        (events + (if f.plugin then [PluginCalled(f)] else []) + [Pushed(f)]) + rest.events &&
      RunUse(wares[i..]).error == rest.error
  {
    var f := wares[i].factory;
    RunUseFn(wares[i..]);
    assert wares[i..][1..] == wares[i + 1..];
    var head := (if f.plugin then [PluginCalled(f)] else []) + [Pushed(f)];
    assert events + (head + RunUse(wares[i + 1..]).events) == (events + head) + RunUse(wares[i + 1..]).events;
    assert events + (if f.plugin then [PluginCalled(f)] else []) + [Pushed(f)] == events + head;
  }

  /** One visit of the seeds loop extends the dialled prefix by the visited seed when
      it is not skipped. */
  lemma DialedStep(dialed: seq<string>, seeds: seq<string>, k: nat, active: seq<Conn>, skip: bool)
    requires k < |seeds|
    requires skip == SkipsSeed(SeedHost(seeds[k]), SeedPort(seeds[k]), active)
    ensures skip ==> dialed + SeedsToDial(seeds[k..], active) == dialed + SeedsToDial(seeds[k + 1..], active)
    ensures !skip ==> dialed + SeedsToDial(seeds[k..], active) == (dialed + [seeds[k]]) + SeedsToDial(seeds[k + 1..], active)
  {
    var t := seeds[k..];
    assert t[0] == seeds[k] && t[1..] == seeds[k + 1..];
    SeedsToDialStep(t, active);
    if skip {
      assert SeedsToDial(t, active) == [] + SeedsToDial(seeds[k + 1..], active);
      assert [] + SeedsToDial(seeds[k + 1..], active) == SeedsToDial(seeds[k + 1..], active);
    } else {
      assert SeedsToDial(t, active) == [seeds[k]] + SeedsToDial(seeds[k + 1..], active);
      assert dialed + ([seeds[k]] + SeedsToDial(seeds[k + 1..], active)) == (dialed + [seeds[k]]) + SeedsToDial(seeds[k + 1..], active);
    }
  }

  /** Dialling one more seed appends one connecting socket and one `net.connect` call. */
  lemma DialRecordsStep(out0: seq<Conn>, dials0: seq<Dial>, base: nat, dialed: seq<string>, seed: string)
    ensures out0 + DialingRun(base, |dialed + [seed]|) == (out0 + DialingRun(base, |dialed|)) + [Dialing(base + |dialed|)]
    ensures dials0 + DialsFor(dialed + [seed], base) ==
      (dials0 + DialsFor(dialed, base)) + [Dial(base + |dialed|, SeedPort(seed), SeedHost(seed))]
  {
    DialsForSnoc(dialed, seed, base);
  }

  /** `_cleanup` keeps the identities fresh, and removes a socket tracked at most once
      from each list. */
  lemma CleanupKeepsValid(inbound: seq<Conn>, outbound: seq<Conn>, socket: nat, n: nat)
    requires IdsFresh(inbound + outbound, n)
    ensures IdsFresh(Connections.Cleanup(inbound, socket) + Connections.Cleanup(outbound, socket), n)
    ensures forall i :: 0 <= i < |Connections.Cleanup(inbound, socket)| ==> Connections.Cleanup(inbound, socket)[i].id != socket
    ensures forall i :: 0 <= i < |Connections.Cleanup(outbound, socket)| ==> Connections.Cleanup(outbound, socket)[i].id != socket
  {
    var ci, co := Connections.Cleanup(inbound, socket), Connections.Cleanup(outbound, socket);
    CleanupKeepsOthers(inbound, socket);
    CleanupKeepsOthers(outbound, socket);
    SubsequenceConcat(ci, inbound, co, outbound);
    SubsequenceIdsFresh(ci + co, inbound + outbound, n);
    IdsFreshSplit(inbound, outbound, n);
    CleanupRemovesSingle(inbound, socket);
    CleanupRemovesSingle(outbound, socket);
  }

  /** Removing the element at position `i` of `r` leaves the next one, now at `i`,
      unexamined, so the prefix through it is settled. */
  lemma CleanupStep(r: seq<Conn>, i: nat, socket: nat)
    requires i < |r| && r[i].id == socket
    ensures var r' := r[..i] + r[i + 1..];
      var m := if i + 1 <= |r'| then i + 1 else |r'|;
      r'[..m] + Connections.Cleanup(r'[m..], socket) == r[..i] + Connections.Cleanup(r[i..], socket)
  {
    var r' := r[..i] + r[i + 1..];
    assert r[i..][0] == r[i];
    if i + 1 < |r| {
      assert r[i..][1] == r[i + 1] && r[i..][2..] == r[i + 2..];
      assert r'[..i + 1] == r[..i] + [r[i + 1]];
      assert r'[i + 1..] == r[i + 2..];
    } else {
      assert r' == r[..i];
      assert r[i..] == [r[i]];
    }
  }
}
