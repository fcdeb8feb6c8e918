/** The middleware stack: registration with `use`, and the per-socket instances that
    `_initMiddlewareStack` builds and wires into a pipeline.

    A middleware is a factory function; it may carry a `_plugin` hook, run once when it is
    registered, and the instances it builds may carry an `_init` hook, run once per
    socket. Hooks are foreign code: the model records each call as an event, in order. */
module Middleware {

  import opened Wrappers
  import opened Js

  /** A middleware function. `id` names the function; two entries with the same fields
      are the same function, so a user factory `Factory(0, false, false)` cannot be told
      from `Passthrough`, and no contract relies on telling them apart. `plugin`: it has a
      `_plugin` function; `instanceInit`: the instances it returns have an `_init`
      function (decided per factory, not per instance). */
  datatype Factory = Factory(id: nat, plugin: bool, instanceInit: bool)

  /** The entry the stack starts with: a passthrough stream with neither hook. */
  const Passthrough: Factory := Factory(0, false, false)

  /** An entry given to `use`: a function, or any other value. */
  datatype Ware = Fn(factory: Factory) | NotFunction(value: JsValue)

  /** The argument of `use`: one value, or an array of them. */
  datatype UseArg = Single(ware: Ware) | List(wares: seq<Ware>)

  /** `if (!Array.isArray(middleware)) middleware = [middleware]`. A string array passed as
      a single value is an array too; its entries are strings, not functions. */
  function Normalize(arg: UseArg): (wares: seq<Ware>)
    ensures arg.List? ==> wares == arg.wares
    ensures arg.Single? && !(arg.ware.NotFunction? && arg.ware.value.StrArray?) ==> wares == [arg.ware]
    ensures arg.Single? && arg.ware.NotFunction? && arg.ware.value.StrArray? ==>
      |wares| == |arg.ware.value.items| && forall i :: 0 <= i < |wares| ==> wares[i].NotFunction?
  {
    match arg
    case List(ws) => ws
    case Single(NotFunction(StrArray(items))) =>
      seq(|items|, i requires 0 <= i < |items| => NotFunction(Str(items[i])))
    case Single(w) => [w]
  }

  /** What `use` does, in order: call a registering factory's `_plugin`, push a factory. */
  datatype UseEvent = PluginCalled(f: Factory) | Pushed(f: Factory)

  /** The outcome of the `forEach` in `use`: the factories pushed, the events in order, and
      the TypeError that stopped it, if any. */
  datatype UseRun = UseRun(registered: seq<Factory>, events: seq<UseEvent>, error: Option<JsError>)

  function RunUse(wares: seq<Ware>): UseRun
    decreases |wares|
  {
    if wares == [] then UseRun([], [], None)
    else match wares[0]
      case NotFunction(_) => UseRun([], [], Some(TypeError("Middleware must be a function")))
      case Fn(f) =>
        var rest := RunUse(wares[1..]);
        UseRun([f] + rest.registered,
               (if f.plugin then [PluginCalled(f)] else []) + [Pushed(f)] + rest.events,
               rest.error)
  }

  /** One step of the `forEach` in `use`, on a function. */
  lemma RunUseFn(wares: seq<Ware>)
    requires wares != [] && wares[0].Fn?
    ensures var f, rest := wares[0].factory, RunUse(wares[1..]);
      RunUse(wares).registered == [f] + rest.registered &&
      RunUse(wares).events == (if f.plugin then [PluginCalled(f)] else []) + [Pushed(f)] + rest.events &&
      RunUse(wares).error == rest.error
  {
  }

  function FactoriesOf(wares: seq<Ware>): (fs: seq<Factory>)
    requires forall i :: 0 <= i < |wares| ==> wares[i].Fn?
    ensures |fs| == |wares| && forall i :: 0 <= i < |fs| ==> fs[i] == wares[i].factory
  {
    seq(|wares|, i requires 0 <= i < |wares| => wares[i].factory)
  }

  /** `use` registers the functions before the first non-function, in order, and throws
      a TypeError exactly when there is a non-function. */
  lemma {:induction false} UseRegistersPrefix(wares: seq<Ware>, k: nat)
    requires k <= |wares|
    requires forall i :: 0 <= i < k ==> wares[i].Fn?
    requires k == |wares| || wares[k].NotFunction?
    ensures RunUse(wares).registered == FactoriesOf(wares[..k])
    ensures RunUse(wares).error == (if k < |wares| then Some(TypeError("Middleware must be a function")) else None)
    decreases k
  {
    if k == 0 {
      if wares != [] {
        assert wares[0].NotFunction?;
      }
    } else {
      assert forall i :: 0 <= i < k - 1 ==> wares[1..][i] == wares[i + 1];
      UseRegistersPrefix(wares[1..], k - 1);
      assert wares[1..][..k - 1] == wares[..k][1..];
    }
  }

  /** The pushes in an event sequence, in order. */
  function PushedOf(events: seq<UseEvent>): seq<Factory>
    decreases |events|
  {
    if events == [] then []
    else (if events[0].Pushed? then [events[0].f] else []) + PushedOf(events[1..])
  }

  /** A factory's `_plugin` is called right before that factory is pushed, and a factory
      with a `_plugin` is pushed only right after its call. */
  ghost predicate PluginPaired(events: seq<UseEvent>)
  {
    (forall j :: 0 <= j < |events| && events[j].PluginCalled? ==>
       events[j].f.plugin && j + 1 < |events| && events[j + 1] == Pushed(events[j].f)) &&
    (forall j :: 0 <= j < |events| && events[j].Pushed? && events[j].f.plugin ==>
       j > 0 && events[j - 1] == PluginCalled(events[j].f))
  }

  lemma PluginPairedConcat(a: seq<UseEvent>, b: seq<UseEvent>)
    requires PluginPaired(a) && PluginPaired(b)
    ensures PluginPaired(a + b)
  {
    var ev := a + b;
    forall j | 0 <= j < |ev| && ev[j].PluginCalled?
      ensures ev[j].f.plugin && j + 1 < |ev| && ev[j + 1] == Pushed(ev[j].f)
    {
      if j >= |a| {
        assert ev[j] == b[j - |a|];
        assert ev[j + 1] == b[j + 1 - |a|];
      } else {
        assert ev[j] == a[j];
        assert ev[j + 1] == a[j + 1];
      }
    }
    forall j | 0 <= j < |ev| && ev[j].Pushed? && ev[j].f.plugin
      ensures j > 0 && ev[j - 1] == PluginCalled(ev[j].f)
    {
      if j >= |a| {
        assert ev[j] == b[j - |a|];
        assert ev[j - 1] == b[j - 1 - |a|];
      } else {
        assert ev[j] == a[j];
        assert ev[j - 1] == a[j - 1];
      }
    }
  }

  /** The events `use` produces for one function: its `_plugin` call, if any, then the
      push. */
  lemma RegisterOnePaired(f: Factory)
    ensures var head := (if f.plugin then [PluginCalled(f)] else []) + [Pushed(f)];
      PluginPaired(head) && PushedOf(head) == [f]
  {
    var head := (if f.plugin then [PluginCalled(f)] else []) + [Pushed(f)];
    assert [Pushed(f)][1..] == [];
    if f.plugin {
      assert head == [PluginCalled(f), Pushed(f)];
      assert head[1..] == [Pushed(f)];
      assert PushedOf(head[1..]) == [f];
      assert PushedOf(head) == [] + [f];
      assert head[0].f.plugin && head[1] == Pushed(head[0].f);
    } else {
      assert head == [Pushed(f)];
    }
  }

  /** The events of `use`: the pushes are exactly the registered factories, in order; a
      factory's `_plugin` is called right before it is pushed, and only then. */
  lemma {:induction false} UseEventOrder(wares: seq<Ware>)
    ensures PushedOf(RunUse(wares).events) == RunUse(wares).registered
    ensures PluginPaired(RunUse(wares).events)
    decreases |wares|
  {
    if wares != [] && wares[0].Fn? {
      var f := wares[0].factory;
      var rest := RunUse(wares[1..]);
      UseEventOrder(wares[1..]);
      var head := (if f.plugin then [PluginCalled(f)] else []) + [Pushed(f)];
      RunUseFn(wares);
      RegisterOnePaired(f);
      PushedOfConcat(head, rest.events);
      PluginPairedConcat(head, rest.events);
    }
  }

  lemma {:induction false} PushedOfConcat(a: seq<UseEvent>, b: seq<UseEvent>)
    ensures PushedOf(a + b) == PushedOf(a) + PushedOf(b)
    decreases |a|
  {
    if a == [] {
      assert a + b == b;
    } else {
      assert (a + b)[0] == a[0] && (a + b)[1..] == a[1..] + b;
      PushedOfConcat(a[1..], b);
    }
  }

  // ---------------------------------------------------------------------------
  // _initMiddlewareStack and _process

  /** The instance that the factory at `position` of the stack returns for a socket. */
  datatype Instance = Instance(position: nat, factory: Factory, socket: nat)

  /** `self.stack.map((wareFn, index) => wareFn(socket))`. */
  function Instantiate(stack: seq<Factory>, socket: nat): (r: seq<Instance>)
    ensures |r| == |stack|
    ensures forall i :: 0 <= i < |r| ==> r[i].position == i && r[i].factory == stack[i] && r[i].socket == socket
  {
    seq(|stack|, i requires 0 <= i < |stack| => Instance(i, stack[i], socket))
  }

  /** What building a pipeline does, in order. `Created`: a factory was called;
      `Added`: `pipeline.use(ware)`; `InitCalled`: `ware._init(app, socket)`;
      `Opened`: the pipeline was opened and its output subscribed to;
      `Piped`: the socket was piped into an instance. */
  datatype PipelineEvent =
    | Created(inst: Instance)
    | Added(inst: Instance)
    | InitCalled(inst: Instance)
    | Opened
    | Piped(socket: nat, inst: Instance)

  function CreatedEvents(insts: seq<Instance>): (r: seq<PipelineEvent>)
    ensures |r| == |insts| && forall i :: 0 <= i < |r| ==> r[i] == Created(insts[i])
  {
    seq(|insts|, i requires 0 <= i < |insts| => Created(insts[i]))
  }

  /** The events of the `forEach` that adds each instance to the pipeline and then calls
      its `_init`, if it has one. */
  function Wiring(insts: seq<Instance>): seq<PipelineEvent>
    decreases |insts|
  {
    if insts == [] then []
    else
      var last := insts[|insts| - 1];
      Wiring(insts[..|insts| - 1]) + [Added(last)] + (if last.factory.instanceInit then [InitCalled(last)] else [])
  }

  /** All the events of `_initMiddlewareStack`: every factory is called first, then the
      instances are wired, then the pipeline is opened. */
  function InitTrace(insts: seq<Instance>): seq<PipelineEvent>
  {
    CreatedEvents(insts) + Wiring(insts) + [Opened]
  }

  /** The instances added to the pipeline, in order. */
  function AddedOf(events: seq<PipelineEvent>): seq<Instance>
    decreases |events|
  {
    if events == [] then []
    else AddedOf(events[..|events| - 1]) + (if events[|events| - 1].Added? then [events[|events| - 1].inst] else [])
  }

  /** The instances whose `_init` was called, in call order. */
  function InitsOf(events: seq<PipelineEvent>): seq<Instance>
    decreases |events|
  {
    if events == [] then []
    else InitsOf(events[..|events| - 1]) + (if events[|events| - 1].InitCalled? then [events[|events| - 1].inst] else [])
  }

  /** The instances that have an `_init` hook, in order. */
  function WithInit(insts: seq<Instance>): seq<Instance>
    decreases |insts|
  {
    if insts == [] then []
    else WithInit(insts[..|insts| - 1]) + (if insts[|insts| - 1].factory.instanceInit then [insts[|insts| - 1]] else [])
  }

  lemma {:induction false} AddedOfConcat(a: seq<PipelineEvent>, b: seq<PipelineEvent>)
    ensures AddedOf(a + b) == AddedOf(a) + AddedOf(b)
    ensures InitsOf(a + b) == InitsOf(a) + InitsOf(b)
    decreases |b|
  {
    if b == [] {
      assert a + b == a;
    } else {
      assert (a + b)[..|a + b| - 1] == a + b[..|b| - 1];
      AddedOfConcat(a, b[..|b| - 1]);
    }
  }

  /** The events for one instance: it is added to the pipeline, then its `_init` runs. */
  function WireOne(inst: Instance): (r: seq<PipelineEvent>)
    ensures |r| == (if inst.factory.instanceInit then 2 else 1)
    ensures r[0] == Added(inst)
    ensures |r| == 2 ==> r[1] == InitCalled(inst)
  {
    [Added(inst)] + (if inst.factory.instanceInit then [InitCalled(inst)] else [])
  }

  lemma WireOneEvents(inst: Instance)
    ensures AddedOf(WireOne(inst)) == [inst]
    ensures InitsOf(WireOne(inst)) == (if inst.factory.instanceInit then [inst] else [])
  {
    var r := WireOne(inst);
    assert [Added(inst)][..0] == [];
    assert AddedOf([Added(inst)]) == [inst];
    assert InitsOf([Added(inst)]) == [];
    if inst.factory.instanceInit {
      assert r[..1] == [Added(inst)];
    }
  }

  lemma WiringUnfold(insts: seq<Instance>)
    requires insts != []
    ensures Wiring(insts) == Wiring(insts[..|insts| - 1]) + WireOne(insts[|insts| - 1])
  {
  }

  /** The pipeline receives the instances in stack order, and the `_init` hooks are
      called in stack order, once for each instance that has one. */
  lemma {:induction false} WiringOrder(insts: seq<Instance>)
    ensures AddedOf(Wiring(insts)) == insts
    ensures InitsOf(Wiring(insts)) == WithInit(insts)
    decreases |insts|
  {
    if insts != [] {
      var init := insts[..|insts| - 1];
      var last := insts[|insts| - 1];
      WiringOrder(init);
      WiringUnfold(insts);
      AddedOfConcat(Wiring(init), WireOne(last));
      WireOneEvents(last);
      assert init + [last] == insts;
    }
  }

  /** Each `_init` call comes right after its own instance is added to the pipeline. */
  lemma {:induction false} WiringInitAfterAdd(insts: seq<Instance>)
    ensures var w := Wiring(insts);
      forall j :: 0 <= j < |w| && w[j].InitCalled? ==> j > 0 && w[j - 1] == Added(w[j].inst)
    decreases |insts|
  {
    if insts != [] {
      var init := insts[..|insts| - 1];
      var last := insts[|insts| - 1];
      WiringInitAfterAdd(init);
      WiringUnfold(insts);
      var w := Wiring(insts);
      var p := Wiring(init);
      forall j | 0 <= j < |w| && w[j].InitCalled? ensures j > 0 && w[j - 1] == Added(w[j].inst) {
        if j < |p| {
          assert w[j] == p[j];
          assert w[j - 1] == p[j - 1];
        } else {
          assert w[j] == WireOne(last)[j - |p|];
          assert w[j - 1] == WireOne(last)[j - 1 - |p|];
        }
      }
    }
  }

  /** Among instances numbered by their position, the ones with an `_init` hook are
      listed in strictly increasing position, so no hook is called twice for one socket,
      and each of them has the hook. */
  lemma {:induction false} InitHooksOnce(insts: seq<Instance>)
    requires forall i :: 0 <= i < |insts| ==> insts[i].position == i
    ensures forall a, b :: 0 <= a < b < |WithInit(insts)| ==> WithInit(insts)[a].position < WithInit(insts)[b].position
    ensures forall a :: 0 <= a < |WithInit(insts)| ==>
      WithInit(insts)[a].position < |insts| && WithInit(insts)[a].factory.instanceInit
    decreases |insts|
  {
    if insts != [] {
      var n := |insts|;
      var prev := WithInit(insts[..n - 1]);
      InitHooksOnce(insts[..n - 1]);
      var inits := WithInit(insts);
      assert inits == prev + (if insts[n - 1].factory.instanceInit then [insts[n - 1]] else []);
      forall a | 0 <= a < |inits| ensures inits[a].position < n && inits[a].factory.instanceInit {
        if a < |prev| {
          assert inits[a] == prev[a];
        } else {
          assert inits[a] == insts[n - 1];
        }
      }
      forall a, b | 0 <= a < b < |inits| ensures inits[a].position < inits[b].position {
        assert inits[a] == prev[a];
        if b < |prev| {
          assert inits[b] == prev[b];
        } else {
          assert inits[b] == insts[n - 1];
        }
      }
    }
  }

  /** What `_process` does with a non-empty stack: feed the socket into the first
      instance, and hand back the last. */
  lemma ProcessEnds(stack: seq<Factory>, socket: nat)
    requires |stack| >= 1
    ensures var insts := Instantiate(stack, socket);
      insts[0] == Instance(0, stack[0], socket) &&
      insts[|insts| - 1] == Instance(|stack| - 1, stack[|stack| - 1], socket)
  {
  }
}
