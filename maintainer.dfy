/** One tick of the seed maintainer `_enterNetwork`: which seeds it dials.

    The tick takes the outbound sockets that are not connecting as its snapshot of active
    connections; it stops if `maxPeers <= active.length`, then if
    `minPeers <= active.length`; otherwise it visits the seeds in order and dials each one
    that no active connection causes to be skipped. The skip test, evaluated per active
    connection, is `host === 'localhost' || remoteAddr === '127.0.0.1'` followed by
    `host === remoteAddr && port === remotePort`; the port is the string piece of
    `seed.split(':')` and the remote port a number, so the second test never holds. */
module Maintainer {

  import opened Wrappers
  import opened Js
  import opened Connections
  import Options

  /** A call `net.connect(port, host)` made for the socket of identity `socket`. */
  datatype Dial = Dial(socket: nat, port: JsValue, host: string)

  /** The active snapshot: outbound sockets that are not `_connecting`, in order. */
  function Active(outbound: seq<Conn>): (active: seq<Conn>)
    ensures forall i :: 0 <= i < |active| ==> !active[i].connecting && active[i] in outbound
    ensures forall i :: 0 <= i < |outbound| && !outbound[i].connecting ==> outbound[i] in active
    ensures |active| <= |outbound|
    decreases |outbound|
  {
    if outbound == [] then []
    else (if outbound[0].connecting then [] else [outbound[0]]) + Active(outbound[1..])
  }

  /** The `_connecting` flags of a list of sockets, in order. */
  function Flags(outbound: seq<Conn>): (f: seq<bool>)
    ensures |f| == |outbound| && forall i :: 0 <= i < |f| ==> f[i] == outbound[i].connecting
  {
    seq(|outbound|, i requires 0 <= i < |outbound| => outbound[i].connecting)
  }

  /** The snapshot keeps the outbound order. */
  lemma {:induction false} ActiveOrder(outbound: seq<Conn>)
    ensures IsSubsequence(Active(outbound), outbound)
    decreases |outbound|
  {
    if outbound != [] {
      ActiveOrder(outbound[1..]);
      var rest := Active(outbound[1..]);
      if !outbound[0].connecting {
        assert Active(outbound) == [outbound[0]] + rest;
        assert ([outbound[0]] + rest)[1..] == rest;
      } else {
        assert Active(outbound) == rest;
      }
    }
  }

  /** `active.length`, the number the thresholds are compared with, is the number of
      outbound sockets not connecting. */
  lemma {:induction false} ActiveCount(outbound: seq<Conn>)
    ensures |Active(outbound)| == multiset(Flags(outbound))[false]
    decreases |outbound|
  {
    if outbound != [] {
      ActiveCount(outbound[1..]);
      var head := outbound[0].connecting;
      assert Flags(outbound) == [head] + Flags(outbound[1..]);
      assert multiset(Flags(outbound)) == multiset{head} + multiset(Flags(outbound[1..]));
      assert |Active(outbound)| == (if head then 0 else 1) + |Active(outbound[1..])|;
    }
  }

  /** When the connecting socket at position `i`, the only one with its identity,
      finishes connecting, the active count grows by exactly one. */
  lemma EstablishActivates(outbound: seq<Conn>, i: nat, local: Addr, fd: int, remoteAddress: string, remotePort: int)
    requires i < |outbound| && outbound[i].connecting
    requires forall j :: 0 <= j < |outbound| && j != i ==> outbound[j].id != outbound[i].id
    ensures |Active(Establish(outbound, outbound[i].id, local, fd, remoteAddress, remotePort))| == |Active(outbound)| + 1
  {
    var e := Establish(outbound, outbound[i].id, local, fd, remoteAddress, remotePort);
    FlagsEstablish(outbound, i, local, fd, remoteAddress, remotePort);
    FlagCleared(Flags(outbound), i);
    ActiveCount(outbound);
    ActiveCount(e);
  }

  lemma FlagsEstablish(outbound: seq<Conn>, i: nat, local: Addr, fd: int, remoteAddress: string, remotePort: int)
    requires i < |outbound|
    requires forall j :: 0 <= j < |outbound| && j != i ==> outbound[j].id != outbound[i].id
    ensures Flags(Establish(outbound, outbound[i].id, local, fd, remoteAddress, remotePort)) == Flags(outbound)[i := false]
  {
  }

  lemma FlagCleared(f: seq<bool>, i: nat)
    requires i < |f| && f[i]
    ensures multiset(f[i := false])[false] == multiset(f)[false] + 1
  {
    assert f == f[..i] + [true] + f[i + 1..];
    assert f[i := false] == f[..i] + [false] + f[i + 1..];
  }

  /** With no socket still connecting, the snapshot is the whole outbound list. */
  lemma {:induction false} ActiveAllEstablished(outbound: seq<Conn>)
    requires forall i :: 0 <= i < |outbound| ==> !outbound[i].connecting
    ensures Active(outbound) == outbound
    decreases |outbound|
  {
    if outbound != [] {
      ActiveAllEstablished(outbound[1..]);
      assert [outbound[0]] + outbound[1..] == outbound;
    }
  }

  /** Appending connecting sockets leaves the active snapshot as it was: dialling never
      raises the count the thresholds are compared with. */
  lemma {:induction false} ActiveIgnoresConnecting(outbound: seq<Conn>, added: seq<Conn>)
    requires forall i :: 0 <= i < |added| ==> added[i].connecting
    ensures Active(outbound + added) == Active(outbound)
    decreases |outbound| + |added|
  {
    if outbound == [] {
      if added != [] {
        assert ([] + added)[1..] == added[1..];
        ActiveIgnoresConnecting([], added[1..]);
        assert [] + added[1..] == added[1..];
        assert [] + added == added;
      }
    } else {
      assert (outbound + added)[0] == outbound[0];
      assert (outbound + added)[1..] == outbound[1..] + added;
      ActiveIgnoresConnecting(outbound[1..], added);
    }
  }

  /** `seed.split(':')[0]` and `seed.split(':')[1]`: the host, and the port as a string,
      or undefined when the seed has no ':'. */
  function ParseSeed(seed: string): (string, JsValue)
  {
    var parts := Split(seed, ':');
    (parts[0], if |parts| == 1 then Undefined else Str(parts[1]))
  }

  /** The host is the text before the first ':' (the whole seed when there is none); the
      port is the text between the first ':' and the next one or the end, as a string,
      and undefined exactly when the seed has no ':'. */
  lemma ParseSeedSpec(seed: string)
    ensures var hp := ParseSeed(seed);
      ':' !in hp.0 &&
      (hp.1.Str? || hp.1.Undefined?) &&
      (hp.1.Undefined? <==> ':' !in seed) &&
      (hp.1.Undefined? ==> hp.0 == seed) &&
      (hp.1.Str? ==>
        ':' !in hp.1.s && |hp.0| + 1 + |hp.1.s| <= |seed| &&
        seed[..|hp.0| + 1 + |hp.1.s|] == hp.0 + ":" + hp.1.s &&
        (|hp.0| + 1 + |hp.1.s| == |seed| || seed[|hp.0| + 1 + |hp.1.s|] == ':'))
  {
    var parts := Split(seed, ':');
    JoinSplit(seed, ':');
    if |parts| > 1 {
      assert ':' in seed by {
        assert seed == parts[0] + [':'] + Join(parts[1..], ':');
        assert seed[|parts[0]|] == ':';
      }
      assert seed == parts[0] + [':'] + Join(parts[1..], ':');
      assert |parts[1..]| > 1 ==> Join(parts[1..], ':') == parts[1] + [':'] + Join(parts[2..], ':') by {
        if |parts[1..]| > 1 {
          assert parts[1..][0] == parts[1] && parts[1..][1..] == parts[2..];
        }
      }
      assert |parts[1..]| == 1 ==> Join(parts[1..], ':') == parts[1];
    }
  }

  function SeedHost(seed: string): string
  {
    ParseSeed(seed).0
  }

  function SeedPort(seed: string): JsValue
  {
    ParseSeed(seed).1
  }

  /** Whether the loop over the active snapshot returns early for this seed, i.e. skips it. */
  function SkipsSeed(host: string, port: JsValue, active: seq<Conn>): bool
    decreases |active|
  {
    if active == [] then false
    else
      var remoteAddr, remotePort := active[0].remoteAddress, active[0].remotePort;
      (host == "localhost" || remoteAddr == "127.0.0.1") ||
      (host == remoteAddr && StrictEquals(port, Num(remotePort))) ||
      SkipsSeed(host, port, active[1..])
  }

  /** A seed whose port is not a number is dialled iff, for every active connection, the
      seed's host is not 'localhost' and the connection's remote address is not
      '127.0.0.1'. The host/port test never skips, and with no active connection nothing
      is skipped. */
  lemma {:induction false} SeedDialedIff(host: string, port: JsValue, active: seq<Conn>)
    requires !port.Num?
    ensures !SkipsSeed(host, port, active) <==>
      forall a :: 0 <= a < |active| ==> host != "localhost" && active[a].remoteAddress != "127.0.0.1"
    decreases |active|
  {
    if active != [] {
      assert !StrictEquals(port, Num(active[0].remotePort));
      SeedDialedIff(host, port, active[1..]);
      assert forall a :: 1 <= a < |active| ==> active[a] == active[1..][a - 1];
    }
  }

  /** The seeds the tick dials, in seed order. */
  function SeedsToDial(seeds: seq<string>, active: seq<Conn>): seq<string>
    decreases |seeds|
  {
    if seeds == [] then []
    else
      var rest := SeedsToDial(seeds[1..], active);
      (if SkipsSeed(SeedHost(seeds[0]), SeedPort(seeds[0]), active) then [] else [seeds[0]]) + rest
  }

  /** The tick dials a selection of the seeds, in seed order. */
  lemma {:induction false} SeedsToDialSubsequence(seeds: seq<string>, active: seq<Conn>)
    ensures IsSubsequence(SeedsToDial(seeds, active), seeds)
    decreases |seeds|
  {
    if seeds != [] {
      var rest := SeedsToDial(seeds[1..], active);
      SeedsToDialSubsequence(seeds[1..], active);
      if !SkipsSeed(SeedHost(seeds[0]), SeedPort(seeds[0]), active) {
        assert ([seeds[0]] + rest)[1..] == rest;
      } else {
        assert [] + rest == rest;
      }
    }
  }

  /** Each seed is dialled (as often as it is listed) exactly when the skip test lets it
      through. */
  lemma {:induction false} SeedsToDialMembers(seeds: seq<string>, active: seq<Conn>, seed: string)
    requires seed in seeds
    ensures seed in SeedsToDial(seeds, active) <==> !SkipsSeed(SeedHost(seed), SeedPort(seed), active)
    decreases |seeds|
  {
    if seeds[0] != seed {
      SeedsToDialMembers(seeds[1..], active, seed);
    } else if seed in seeds[1..] {
      SeedsToDialMembers(seeds[1..], active, seed);
    } else {
      SeedsNotListedNotDialled(seeds[1..], active, seed);
    }
  }

  lemma {:induction false} SeedsNotListedNotDialled(seeds: seq<string>, active: seq<Conn>, seed: string)
    requires seed !in seeds
    ensures seed !in SeedsToDial(seeds, active)
    decreases |seeds|
  {
    if seeds != [] {
      SeedsNotListedNotDialled(seeds[1..], active, seed);
    }
  }

  /** When the skip test lets every seed through, every seed is dialled, in order. */
  lemma {:induction false} NoneSkippedDialsAll(seeds: seq<string>, active: seq<Conn>)
    requires forall i :: 0 <= i < |seeds| ==> !SkipsSeed(SeedHost(seeds[i]), SeedPort(seeds[i]), active)
    ensures SeedsToDial(seeds, active) == seeds
    decreases |seeds|
  {
    if seeds != [] {
      assert forall i :: 1 <= i < |seeds| ==> seeds[1..][i - 1] == seeds[i];
      NoneSkippedDialsAll(seeds[1..], active);
    }
  }

  /** With no active connection every seed is dialled, in order. */
  lemma NoActiveDialsEverySeed(seeds: seq<string>)
    ensures SeedsToDial(seeds, []) == seeds
  {
    NoneSkippedDialsAll(seeds, []);
  }

  /** The seeds one tick dials given the own options `opts` and the outbound list, or the
      TypeError `seeds.forEach` throws when the `seeds` option is not an array. */
  function TickTargets(opts: map<string, JsValue>, outbound: seq<Conn>): Result<seq<string>, JsError>
  {
    var active := Active(outbound);
    if LessOrEqual(Options.Lookup(opts, "maxPeers"), |active|) then Success([])
    else if LessOrEqual(Options.Lookup(opts, "minPeers"), |active|) then Success([])
    else
      match Options.Lookup(opts, "seeds")
      case StrArray(seeds) => Success(SeedsToDial(seeds, active))
      case _ => Failure(TypeError("seeds.forEach is not a function"))
  }

  /** The tick dials nothing once the active count reaches `minPeers` or `maxPeers`;
      below both it dials the seeds its skip test lets through, against the one snapshot
      taken at the start, or throws when `seeds` is not an array. */
  lemma TickThresholds(opts: map<string, JsValue>, outbound: seq<Conn>)
    ensures var n, active := |Active(outbound)|, Active(outbound);
      var mn, mx, seeds := Options.Lookup(opts, "minPeers"), Options.Lookup(opts, "maxPeers"),
                           Options.Lookup(opts, "seeds");
      (LessOrEqual(mn, n) || LessOrEqual(mx, n) ==> TickTargets(opts, outbound) == Success([])) &&
      (!LessOrEqual(mn, n) && !LessOrEqual(mx, n) && seeds.StrArray? ==>
         TickTargets(opts, outbound) == Success(SeedsToDial(seeds.items, active))) &&
      (!LessOrEqual(mn, n) && !LessOrEqual(mx, n) && !seeds.StrArray? ==>
         TickTargets(opts, outbound).Failure?)
  {
  }

  /** The `maxPeers` test is dominated by the `minPeers` test: when both are numbers with
      `minPeers <= maxPeers`, the tick with `maxPeers` undefined (so that its test never
      holds) decides the same. */
  lemma MaxPeersDominated(opts: map<string, JsValue>, outbound: seq<Conn>, mn: int, mx: int)
    requires Options.Lookup(opts, "minPeers") == Num(mn) && Options.Lookup(opts, "maxPeers") == Num(mx)
    requires mn <= mx
    ensures TickTargets(opts, outbound) == TickTargets(opts["maxPeers" := Undefined], outbound)
  {
    var other := opts["maxPeers" := Undefined];
    assert Options.Lookup(other, "maxPeers") == Undefined;
    assert Options.Lookup(other, "minPeers") == Num(mn);
    assert Options.Lookup(other, "seeds") == Options.Lookup(opts, "seeds");
  }

  /** The records that `n` dials starting at socket identity `base` append to the
      outbound list: fresh sockets, still connecting, numbered in dial order. */
  function DialingRun(base: nat, n: nat): (r: seq<Conn>)
    ensures |r| == n
    ensures forall i :: 0 <= i < n ==> r[i] == Dialing(base + i)
    decreases n
  {
    if n == 0 then [] else DialingRun(base, n - 1) + [Dialing(base + n - 1)]
  }

  /** The `net.connect(port, host)` calls for the seeds `targets`, sockets numbered from
      `base`: each seed is dialled at its own host and port, in seed order. */
  function DialsFor(targets: seq<string>, base: nat): (r: seq<Dial>)
    ensures |r| == |targets|
    decreases |targets|
  {
    if targets == [] then []
    else
      var last := targets[|targets| - 1];
      DialsFor(targets[..|targets| - 1], base) + [Dial(base + |targets| - 1, SeedPort(last), SeedHost(last))]
  }

  /** Each seed of `targets` is dialled at its own host and port, in seed order, with
      socket identities counting up from `base`. */
  lemma {:induction false} DialsForSpec(targets: seq<string>, base: nat)
    ensures forall i :: 0 <= i < |targets| ==>
      DialsFor(targets, base)[i] == Dial(base + i, SeedPort(targets[i]), SeedHost(targets[i]))
    decreases |targets|
  {
    if targets != [] {
      var init := targets[..|targets| - 1];
      DialsForSpec(init, base);
      forall i | 0 <= i < |targets|
        ensures DialsFor(targets, base)[i] == Dial(base + i, SeedPort(targets[i]), SeedHost(targets[i]))
      {
        if i < |init| {
          assert targets[i] == init[i];
        }
      }
    }
  }

  lemma DialsForSnoc(targets: seq<string>, seed: string, base: nat)
    ensures DialsFor(targets + [seed], base) == DialsFor(targets, base) + [Dial(base + |targets|, SeedPort(seed), SeedHost(seed))]
  {
    assert (targets + [seed])[..|targets|] == targets;
  }

  /** One step of the seeds loop: the first seed is dialled unless skipped. */
  lemma SeedsToDialStep(seeds: seq<string>, active: seq<Conn>)
    requires seeds != []
    ensures SeedsToDial(seeds, active) ==
      (if SkipsSeed(SeedHost(seeds[0]), SeedPort(seeds[0]), active) then [] else [seeds[0]]) + SeedsToDial(seeds[1..], active)
  {
  }

  /** A tick that finds the sockets of an earlier tick still connecting decides exactly as
      that tick did: it dials the same seeds again. */
  lemma TickRepeatsWhileConnecting(opts: map<string, JsValue>, outbound: seq<Conn>, base: nat, n: nat)
    ensures TickTargets(opts, outbound + DialingRun(base, n)) == TickTargets(opts, outbound)
  {
    ActiveIgnoresConnecting(outbound, DialingRun(base, n));
  }

  /** A socket that finished connecting, with the given remote end, as `OnConnect` leaves
      it: bound to a local address and port, with an open descriptor. */
  function Established(id: nat, remoteAddress: string, remotePort: int): Conn
  {
    Conn(id, false, Some(Addr("10.0.0.100", 40000 + id)), Some(FdNum(id)), remoteAddress, remotePort)
  }

  /** A seed whose host is not 'localhost' is dialled whenever no active connection is
      from '127.0.0.1'. */
  lemma NonLocalSeedDialled(seed: string, active: seq<Conn>)
    requires SeedHost(seed) != "localhost"
    requires forall a :: 0 <= a < |active| ==> active[a].remoteAddress != "127.0.0.1"
    ensures !SkipsSeed(SeedHost(seed), SeedPort(seed), active)
  {
    ParseSeedSpec(seed);
    SeedDialedIff(SeedHost(seed), SeedPort(seed), active);
  }

  /** Seed 127.0.0.1:9000 with an active connection to 127.0.0.1:9000: no dial (the
      loopback test skips it; the host/port test would not). */
  lemma ExampleLoopbackSeed()
    ensures TickTargets(map["seeds" := StrArray(["127.0.0.1:9000"])],
                        [Established(1, "127.0.0.1", 9000)]) == Success([])
  {
    var seed := "127.0.0.1:9000";
    var active := Active([Established(1, "127.0.0.1", 9000)]);
    assert active == [Established(1, "127.0.0.1", 9000)];
    assert SkipsSeed(SeedHost(seed), SeedPort(seed), active);
    assert SeedsToDial([seed], active) == [];
  }

  /** Below the default thresholds (3 and 12), a tick dials the seeds the skip test lets
      through. */
  lemma BelowDefaults(opts: map<string, JsValue>, outbound: seq<Conn>)
    requires "minPeers" !in opts && "maxPeers" !in opts && |Active(outbound)| < 3
    requires Options.Lookup(opts, "seeds").StrArray?
    ensures TickTargets(opts, outbound) == Success(SeedsToDial(Options.Lookup(opts, "seeds").items, Active(outbound)))
  {
    assert Options.Lookup(opts, "maxPeers") == Num(12);
    assert Options.Lookup(opts, "minPeers") == Num(3);
  }

  /** Defaults (3 and 12), two active connections, three seeds none of which is
      connected: all three are dialled. */
  lemma ExampleBelowMinimum()
    ensures
      var outbound := [Established(1, "10.0.0.1", 1), Established(2, "10.0.0.2", 2)];
      TickTargets(map["seeds" := StrArray(["h1:1", "h2:2", "h3:3"])], outbound)
        == Success(["h1:1", "h2:2", "h3:3"])
  {
    var outbound := [Established(1, "10.0.0.1", 1), Established(2, "10.0.0.2", 2)];
    var seeds := ["h1:1", "h2:2", "h3:3"];
    var opts := map["seeds" := StrArray(seeds)];
    ActiveAllEstablished(outbound);
    BelowDefaults(opts, outbound);
    ExampleSeedsDialled(seeds, outbound);
  }

  lemma ExampleSeedsDialled(seeds: seq<string>, active: seq<Conn>)
    requires seeds == ["h1:1", "h2:2", "h3:3"]
    requires active == [Established(1, "10.0.0.1", 1), Established(2, "10.0.0.2", 2)]
    ensures SeedsToDial(seeds, active) == seeds
  {
    forall i | 0 <= i < 3 ensures !SkipsSeed(SeedHost(seeds[i]), SeedPort(seeds[i]), active) {
      assert seeds[i][2] == ':';
      ParseSeedSpec(seeds[i]);
      assert |SeedHost(seeds[i])| < 4;
      NonLocalSeedDialled(seeds[i], active);
    }
    NoneSkippedDialsAll(seeds, active);
  }

  /** `minPeers` 3 and three active connections: no dial, although seeds remain and
      `maxPeers` is 12. */
  lemma ExampleMinimumReached()
    ensures
      var outbound := [Established(1, "10.0.0.1", 1), Established(2, "10.0.0.2", 2),
                       Established(3, "10.0.0.3", 3)];
      TickTargets(map["minPeers" := Num(3), "maxPeers" := Num(12),
                      "seeds" := StrArray(["h4:4"])], outbound) == Success([])
  {
    var outbound := [Established(1, "10.0.0.1", 1), Established(2, "10.0.0.2", 2),
                     Established(3, "10.0.0.3", 3)];
    var opts := map["minPeers" := Num(3), "maxPeers" := Num(12), "seeds" := StrArray(["h4:4"])];
    ActiveAllEstablished(outbound);
    assert Options.Lookup(opts, "minPeers") == Num(3) && Options.Lookup(opts, "maxPeers") == Num(12);
    assert LessOrEqual(Num(3), |Active(outbound)|);
  }
}
