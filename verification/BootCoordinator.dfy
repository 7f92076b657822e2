/** The boot coordinator: it sorts its components into layers and starts them layer by layer. */
module BootCoordination {
  import opened Lists
  import opened BootLayers

  class BootComponent {
    var dependencies: seq<BootComponent>

    constructor (dependencies: seq<BootComponent>)
      ensures this.dependencies == dependencies
    {
      this.dependencies := dependencies;
    }

    method RemoveDependency(dependency: BootComponent)
      modifies this
      ensures dependencies == Without(old(dependencies), dependency)
    {
      dependencies := Without(dependencies, dependency);
    }
  }

  /** What the coordinator does with a component. */
  datatype Event = Start(c: BootComponent) | Join(c: BootComponent)

  class BootCoordinator {
    var components: seq<BootComponent>
    var layeredComponents: seq<seq<BootComponent>>
    var hasStarted: bool
    /** What has happened so far. */
    var log: seq<Event>

    constructor (components: seq<BootComponent>)
      ensures this.components == components && layeredComponents == [] && !hasStarted && log == []
    {
      this.components, layeredComponents, hasStarted, log := components, [], false, [];
    }

    /** The components `all` as values, of which `left` are not in a layer yet. */
    ghost function View(all: set<BootComponent>, left: seq<BootComponent>): Boot<BootComponent>
      reads all
    {
      Boot(left, map c | c in all :: c.dependencies)
    }

    /** The components of the list as values. */
    ghost function Registered(): Boot<BootComponent>
      reads this`components, components
    {
      View((set c | c in components), components)
    }

    /** Takes the components that wait for nothing out of the list. */
    method TakeReady(ghost all: set<BootComponent>) returns (queue: seq<BootComponent>)
      requires NoDup(components) && (forall c :: c in components ==> c in all)
      modifies this`components
      ensures queue == Pick(old(components), View(all, []).deps, true)
      ensures components == Pick(old(components), View(all, []).deps, false)
    {
      hide *;
      queue := [];
      var snapshot := components;
      ghost var deps := View(all, []).deps;
      ViewHas(all);
      var i: nat := 0;
      Ends(snapshot, deps);
      while i < |snapshot|
        invariant i <= |snapshot| && queue == PickFirst(snapshot, i, deps, true)
        invariant components == PickFirst(snapshot, i, deps, false) + snapshot[i..]
      {
        var component := snapshot[i];
        StepAt(snapshot, i, deps);
        if component.dependencies == [] {
          queue := queue + [component];
          components := Without(components, component);
        }
        i := i + 1;
      }
    }

    /** The components that wait for nothing, or for something, among the first `i`. */
    ghost function PickFirst(cs: seq<BootComponent>, i: nat, deps: map<BootComponent, seq<BootComponent>>,
                             idle: bool): seq<BootComponent>
      requires i <= |cs| && forall x :: x in cs ==> x in deps
    {
      Pick(cs[..i], deps, idle)
    }

    lemma Ends(cs: seq<BootComponent>, deps: map<BootComponent, seq<BootComponent>>)
      requires forall x :: x in cs ==> x in deps
      ensures PickFirst(cs, 0, deps, true) == [] && PickFirst(cs, 0, deps, false) + cs[0..] == cs
      ensures PickFirst(cs, |cs|, deps, true) == Pick(cs, deps, true)
      ensures PickFirst(cs, |cs|, deps, false) + cs[|cs|..] == Pick(cs, deps, false)
    {
      assert cs[..0] == [] && cs[0..] == cs && cs[..|cs|] == cs;
      NonePicked(cs[..0], deps, true);
      NonePicked(cs[..0], deps, false);
    }

    /** One more component looked at. */
    lemma Step(done: seq<BootComponent>, c: BootComponent, deps: map<BootComponent, seq<BootComponent>>,
               rest: seq<BootComponent>)
      requires c in deps && forall x :: x in done ==> x in deps
      ensures Pick(done + [c], deps, true) == Pick(done, deps, true) + if deps[c] == [] then [c] else []
      ensures deps[c] != [] ==> Pick(done + [c], deps, false) + rest == Pick(done, deps, false) + ([c] + rest)
      ensures deps[c] == [] && c !in Pick(done, deps, false) ==>
        Without(Pick(done, deps, false) + ([c] + rest), c) == Pick(done + [c], deps, false) + rest
    {
      hide Pick;
      PickMore(done, c, deps, true);
      PickMore(done, c, deps, false);
      Assoc(Pick(done, deps, false), [c], rest);
      if c !in Pick(done, deps, false) {
        WithoutHere(Pick(done, deps, false), c, rest);
      }
      assert Pick(done, deps, true) + [] == Pick(done, deps, true);
      assert Pick(done, deps, false) + [] == Pick(done, deps, false);
    }

    lemma StepAt(cs: seq<BootComponent>, i: nat, deps: map<BootComponent, seq<BootComponent>>)
      requires NoDup(cs) && i < |cs| && forall x :: x in cs ==> x in deps
      ensures deps[cs[i]] == [] ==> PickFirst(cs, i + 1, deps, true) == PickFirst(cs, i, deps, true) + [cs[i]]
      ensures deps[cs[i]] != [] ==> PickFirst(cs, i + 1, deps, true) == PickFirst(cs, i, deps, true)
      ensures deps[cs[i]] != [] ==>
        PickFirst(cs, i + 1, deps, false) + cs[i + 1..] == PickFirst(cs, i, deps, false) + cs[i..]
      ensures deps[cs[i]] == [] ==>
        Without(PickFirst(cs, i, deps, false) + cs[i..], cs[i]) == PickFirst(cs, i + 1, deps, false) + cs[i + 1..]
    {
      hide Pick, Without;
      assert cs[..i + 1] == cs[..i] + [cs[i]] && cs[i..] == [cs[i]] + cs[i + 1..];
      Step(cs[..i], cs[i], deps, cs[i + 1..]);
      NotBefore(cs, i, deps);
    }

    lemma ViewHas(all: set<BootComponent>)
      ensures View(all, []).deps.Keys == all && forall c :: c in all ==> View(all, []).deps[c] == c.dependencies
    {
    }

    lemma NotBefore(cs: seq<BootComponent>, i: nat, deps: map<BootComponent, seq<BootComponent>>)
      requires NoDup(cs) && i < |cs| && forall x :: x in cs ==> x in deps
      ensures cs[i] !in Pick(cs[..i], deps, false)
    {
    }

    /** Nobody in the list waits for `q` any more. */
    method RemoveFromAll(q: BootComponent)
      requires NoDup(components)
      modifies components
      ensures forall c :: c in components ==> c.dependencies == Without(old(c.dependencies), q)
    {
      hide Without;
      var i: nat := 0;
      while i < |components|
        invariant i <= |components|
        invariant forall j :: 0 <= j < i ==> components[j].dependencies == Without(old(components[j].dependencies), q)
        invariant forall j :: i <= j < |components| ==> components[j].dependencies == old(components[j].dependencies)
      {
        components[i].RemoveDependency(q);
        i := i + 1;
      }
    }

    /** Nobody in the list waits for one of the queue any more; the queue becomes the layer. */
    method Settle(queue: seq<BootComponent>) returns (layer: seq<BootComponent>)
      requires NoDup(components)
      modifies components
      ensures layer == queue
      ensures forall c :: c in components ==> c.dependencies == WithoutAll(old(c.dependencies), queue)
    {
      hide WithoutAll, NoDup;
      layer := [];
      var left := queue;
      NoneRemoved();
      while left != []
        invariant queue == layer + left
        invariant forall c :: c in components ==> c.dependencies == WithoutAll(old(c.dependencies), layer)
      {
        label round:
        RemoveFromAll(left[0]);
        forall c | c in components
          ensures c.dependencies == WithoutAll(old(c.dependencies), layer + [left[0]])
        {
          WithoutAllMore(old(c.dependencies), layer, left[0]);
        }
        assert queue == (layer + [left[0]]) + left[1..];
        layer := layer + [left[0]];
        left := left[1..];
      }
      assert layer + [] == layer;
    }

    lemma NoneRemoved()
      ensures forall s: seq<BootComponent> :: WithoutAll(s, []) == s
    {
    }

    /** One round on the components is one round on the values. */
    method Advance(ghost all: set<BootComponent>) returns (layer: seq<BootComponent>)
      requires Listed(View(all, components)) && (forall c :: c in all && c !in components ==> c.dependencies == [])
      modifies this`components, all
      ensures layer == Pick(old(components), old(View(all, components)).deps, true)
      ensures View(all, components) == Round(old(View(all, components)))
      ensures forall c :: c in all && c !in components ==> c.dependencies == []
    {
      hide Pick, WithoutAll, NoDup;
      ghost var s := View(all, components);
      PickNoDup(components, s.deps, false);
      var queue := TakeReady(all);
      PickedFrom(s);
      layer := Settle(queue);
      forall c | c in all
        ensures c.dependencies == WithoutAll(s.deps[c], queue) && (c !in components ==> c.dependencies == [])
      {
        if c !in components {
          WithoutAllNothing(queue);
        }
      }
    }

    lemma PickedFrom(s: Boot<BootComponent>)
      requires Listed(s)
      ensures forall c :: c in Pick(s.components, s.deps, false) ==> c in s.components
      ensures forall c :: c in s.components && c !in Pick(s.components, s.deps, false) ==> s.deps[c] == []
    {
    }

    /** buildComponentLayers: sorts the components into layers. This ends when there are layer numbers, and only
        then. */
    method BuildComponentLayers(ghost depth: map<BootComponent, nat>)
      requires layeredComponents == [] && Listed(Registered()) && IsDepth(Registered(), depth)
      modifies this`components, this`layeredComponents, components
      ensures layeredComponents == Layers(old(Registered()), depth)
      ensures components == Flat(layeredComponents)
    {
      hide Round, IsDepth, Listed, Layers, Lowered, Pick;
      ghost var all := set c | c in components;
      ghost var s, level := View(all, components), depth;
      ghost var layers := Layers(s, depth);
      assert layeredComponents + layers == layers;
      while components != []
        invariant Listed(View(all, components)) && IsDepth(View(all, components), level)
        invariant forall c :: c in all && c !in components ==> c.dependencies == []
        invariant layers == layeredComponents + Layers(View(all, components), level)
        decreases |components|
      {
        ghost var now := View(all, components);
        RoundLowers(now, level);
        OneLayer(now, level);
        var layer := Advance(all);
        ghost var rest := Layers(View(all, components), Lowered(level));
        assert layeredComponents + ([layer] + rest) == (layeredComponents + [layer]) + rest;
        layeredComponents := layeredComponents + [layer];
        level := Lowered(level);
      }
      NoLayers(View(all, components), level);
      assert layeredComponents + [] == layeredComponents;
      Refill();
    }

    lemma OneLayer(s: Boot<BootComponent>, depth: map<BootComponent, nat>)
      requires Listed(s) && IsDepth(s, depth) && s.components != [] && Listed(Round(s))
      requires IsDepth(Round(s), Lowered(depth))
      ensures Layers(s, depth) == [Pick(s.components, s.deps, true)] + Layers(Round(s), Lowered(depth))
    {
    }

    lemma NoLayers(s: Boot<BootComponent>, depth: map<BootComponent, nat>)
      requires Listed(s) && IsDepth(s, depth) && s.components == []
      ensures Layers(s, depth) == []
    {
    }

    /** Puts the components back into the list, in the order of the layers. */
    method Refill()
      requires components == []
      modifies this`components
      ensures components == Flat(layeredComponents)
    {
      var i: nat := 0;
      assert layeredComponents[..0] == [];
      while i < |layeredComponents|
        invariant i <= |layeredComponents| && components == Flat(layeredComponents[..i])
      {
        assert layeredComponents[..i + 1][..i] == layeredComponents[..i];
        components := components + layeredComponents[i];
        i := i + 1;
      }
      assert layeredComponents[..i] == layeredComponents;
    }

    /** Starts all components of a layer, then waits for all of them. */
    method RunLayer(layer: seq<BootComponent>)
      modifies this`log
      ensures log == old(log) + Events(layer)
    {
      var i: nat := 0;
      while i < |layer|
        invariant i <= |layer| && log == old(log) + seq(i, k requires 0 <= k < |layer| => Start(layer[k]))
      {
        log := log + [Start(layer[i])];
        i := i + 1;
      }
      ghost var started := log;
      i := 0;
      while i < |layer|
        invariant i <= |layer| && log == started + seq(i, k requires 0 <= k < |layer| => Join(layer[k]))
      {
        log := log + [Join(layer[i])];
        i := i + 1;
      }
    }

    /** run: builds the layers and boots them one after the other, the first time it is called. */
    method Run(ghost depth: map<BootComponent, nat>)
      requires log == [] && layeredComponents == [] && Listed(Registered()) && IsDepth(Registered(), depth)
      modifies this, components
      ensures hasStarted
      ensures old(hasStarted) ==> log == []
      ensures !old(hasStarted) ==> log == AllEvents(Layers(old(Registered()), depth))
    {
      hide IsDepth, Listed, Layers, Events;
      if hasStarted {
        return;
      }
      hasStarted := true;
      BuildComponentLayers(depth);
      var i: nat := 0;
      assert layeredComponents[..0] == [];
      while i < |layeredComponents|
        invariant i <= |layeredComponents| && hasStarted && log == AllEvents(layeredComponents[..i])
        invariant layeredComponents == Layers(old(Registered()), depth)
      {
        assert layeredComponents[..i + 1][..i] == layeredComponents[..i];
        RunLayer(layeredComponents[i]);
        i := i + 1;
      }
      assert layeredComponents[..i] == layeredComponents;
    }
  }

  /** What booting a layer does. */
  function Events(layer: seq<BootComponent>): (r: seq<Event>)
    ensures |r| == 2 * |layer|
  {
    seq(|layer|, k requires 0 <= k < |layer| => Start(layer[k])) + seq(|layer|,
      k requires 0 <= k < |layer| => Join(layer[k]))
  }

  function AllEvents(layers: seq<seq<BootComponent>>): seq<Event>
  {
    if layers == [] then [] else AllEvents(layers[..|layers| - 1]) + Events(layers[|layers| - 1])
  }

  /** Whatever is done with a component of layer `i` lies between the events of the layers before and after. */
  lemma {:induction false} EventsOf(layers: seq<seq<BootComponent>>, i: nat) returns (at: nat)
    requires i < |layers|
    ensures at + |Events(layers[i])| <= |AllEvents(layers)|
    ensures AllEvents(layers)[at..at + |Events(layers[i])|] == Events(layers[i])
    ensures at == |AllEvents(layers[..i])|
    decreases |layers|
  {
    var n := |layers| - 1;
    if i == n {
      at := |AllEvents(layers[..n])|;
    } else {
      at := EventsOf(layers[..n], i);
      assert layers[..n][..i] == layers[..i];
      var a, b := AllEvents(layers[..n]), Events(layers[n]);
      assert (a + b)[at..at + |Events(layers[i])|] == a[at..at + |Events(layers[i])|];
    }
  }

  /** The components of a layer are started in a row, and all of them before the first is waited for; they are waited
      for in the same order. */
  lemma LayerRuns(layers: seq<seq<BootComponent>>, i: nat) returns (at: nat)
    requires i < |layers|
    ensures at + 2 * |layers[i]| <= |AllEvents(layers)|
    ensures forall p :: at <= p < at + |layers[i]| ==> AllEvents(layers)[p] == Start(layers[i][p - at])
    ensures forall p :: at + |layers[i]| <= p < at + 2 * |layers[i]| ==>
      AllEvents(layers)[p] == Join(layers[i][p - at - |layers[i]|])
  {
    hide AllEvents;
    at := EventsOf(layers, i);
    var es, all, n := Events(layers[i]), AllEvents(layers), |layers[i]|;
    forall p | at <= p < at + 2 * n
      ensures all[p] == es[p - at]
    {
      assert all[at..at + |es|][p - at] == all[p];
    }
  }

  /** Every event belongs to a layer. */
  lemma {:induction false} LayerOf(layers: seq<seq<BootComponent>>, p: nat) returns (i: nat)
    requires p < |AllEvents(layers)|
    ensures i < |layers| && |AllEvents(layers[..i])| <= p && AllEvents(layers)[p] in Events(layers[i])
    decreases |layers|
  {
    var n := |layers| - 1;
    var a, b := AllEvents(layers[..n]), Events(layers[n]);
    if p < |a| {
      i := LayerOf(layers[..n], p);
      assert layers[..n][..i] == layers[..i];
    } else {
      i := n;
      assert AllEvents(layers)[p] == b[p - |a|];
    }
  }

  lemma EventIn(layer: seq<BootComponent>, c: BootComponent)
    ensures Start(c) in Events(layer) ==> c in layer
    ensures c in layer ==> Join(c) in Events(layer)
  {
    if c in layer {
      var k :| 0 <= k < |layer| && layer[k] == c;
      assert Events(layer)[|layer| + k] == Join(c);
    }
    if Start(c) in Events(layer) {
      var k :| 0 <= k < |Events(layer)| && Events(layer)[k] == Start(c);
      assert k < |layer| && layer[k] == c;
    }
  }

  /** What a component of a lower layer is joined for happens before. */
  lemma JoinedBefore(layers: seq<seq<BootComponent>>, j: nat, i: nat, d: BootComponent) returns (q: nat)
    requires j < i < |layers| && d in layers[j]
    ensures q < |AllEvents(layers[..i])| <= |AllEvents(layers)| && AllEvents(layers)[q] == Join(d)
  {
    hide AllEvents, Events;
    EventIn(layers[j], d);
    var x := EventsOf(layers, j);
    var y := EventsOf(layers[..i], j);
    var z := EventsOf(layers, i);
    assert layers[..i][..j] == layers[..j];
    var es := Events(layers[j]);
    var k :| 0 <= k < |es| && es[k] == Join(d);
    q := x + k;
    assert AllEvents(layers)[q] == AllEvents(layers)[x..x + |es|][k];
  }

  /** No component is started before every component it depends on has been joined. */
  lemma StartedAfterDependencies(s: Boot<BootComponent>, depth: map<BootComponent, nat>, c: BootComponent,
                                 d: BootComponent, p: nat)
    returns (q: nat)
    requires Listed(s) && IsDepth(s, depth) && c in s.components && d in s.deps[c]
    requires p < |AllEvents(Layers(s, depth))| && AllEvents(Layers(s, depth))[p] == Start(c)
    ensures q < p && AllEvents(Layers(s, depth))[q] == Join(d)
  {
    hide AllEvents, Events, Layers;
    var layers := Layers(s, depth);
    var i := LayerOf(layers, p);
    EventIn(layers[i], c);
    LayerHas(s, depth, c, i);
    LayerHas(s, depth, d, depth[d]);
    q := JoinedBefore(layers, depth[d], i, d);
  }

  /** Every listed component is started. */
  lemma EveryoneStarted(s: Boot<BootComponent>, depth: map<BootComponent, nat>, c: BootComponent) returns (p: nat)
    requires Listed(s) && IsDepth(s, depth) && c in s.components
    ensures p < |AllEvents(Layers(s, depth))| && AllEvents(Layers(s, depth))[p] == Start(c)
  {
    hide AllEvents, Layers;
    var layers := Layers(s, depth);
    LayerHas(s, depth, c, depth[c]);
    var layer := layers[depth[c]];
    var at := EventsOf(layers, depth[c]);
    var k :| 0 <= k < |layer| && layer[k] == c;
    p := at + k;
    assert Events(layer)[k] == Start(layer[k]);
    assert AllEvents(layers)[p] == AllEvents(layers)[at..at + |Events(layer)|][k] == Start(c);
  }
}
