// python/manager.cpp: which events are active, and which interpreter a call goes to.
module SnakePit {
  import opened Options
  import opened BitFlags
  import opened Residues

  // An enumerator of QIRCEvent.
  type EventBit = e: Bits | OneBit(e) witness 1

  // QModuleMode::EXCLUSIVE or CONCURRENT, and the events of the handlers.
  datatype Module = Module(enabled: bool, exclusive: bool, handlers: seq<EventBit>)

  type Modules = map<string, Module>

  // ----- The flags as they are computed

  datatype EventFlags = EventFlags(active: Bits, exclusive: Bits)

  function WithHandlers(f: EventFlags, exclusive: bool, handlers: seq<EventBit>): EventFlags {
    if handlers == [] then f
    else
      var g, event := WithHandlers(f, exclusive, handlers[..|handlers| - 1]), handlers[|handlers| - 1];
      EventFlags(Set(g.active, event), if exclusive then Set(g.exclusive, event) else g.exclusive)
  }

  function WithModule(f: EventFlags, mod: Module): EventFlags {
    if mod.enabled then WithHandlers(f, mod.exclusive, mod.handlers) else f
  }

  // The modules visited one after the other, from no flags on.
  function Folded(modules: Modules, order: seq<string>): EventFlags {
    if order == [] then EventFlags(0, 0)
    else
      var name := order[|order| - 1];
      var f := Folded(modules, order[..|order| - 1]);
      if name in modules then WithModule(f, modules[name]) else f
  }

  // The order in which a QHash is iterated: any that visits every module once.
  ghost predicate IsOrder(modules: Modules, order: seq<string>) {
    multiset(order) == multiset(modules.Keys)
  }

  ghost predicate Computed(modules: Modules, f: EventFlags) {
    exists order :: IsOrder(modules, order) && f == Folded(modules, order)
  }

  // ----- ... and what they mean

  ghost predicate HandledIn(modules: Modules, names: seq<string>, e: Bits) {
    exists name :: name in names && name in modules && modules[name].enabled && e in modules[name].handlers
  }

  ghost predicate ExclusiveIn(modules: Modules, names: seq<string>, e: Bits) {
    exists name ::
      && name in names && name in modules
      && modules[name].enabled && modules[name].exclusive && e in modules[name].handlers
  }

  // Some enabled module handles `e`.
  ghost predicate Handled(modules: Modules, e: Bits) {
    exists name :: name in modules && modules[name].enabled && e in modules[name].handlers
  }

  ghost predicate HandledExclusively(modules: Modules, e: Bits) {
    exists name ::
      name in modules && modules[name].enabled && modules[name].exclusive && e in modules[name].handlers
  }

  // The two flag words say exactly which events enabled modules handle.
  ghost predicate Describes(modules: Modules, f: EventFlags) {
    && (forall e :: OneBit(e) ==> (Has(f.active, e) <==> Handled(modules, e)))
    && (forall e :: OneBit(e) ==> (Has(f.exclusive, e) <==> HandledExclusively(modules, e)))
  }

  lemma {:induction false} WithHandlersHas(f: EventFlags, exclusive: bool, handlers: seq<EventBit>, e: Bits)
    requires OneBit(e)
    ensures var g := WithHandlers(f, exclusive, handlers);
            && (Has(g.active, e) <==> Has(f.active, e) || e in handlers)
            && (Has(g.exclusive, e) <==> Has(f.exclusive, e) || (exclusive && e in handlers))
  {
    hide Has, OneBit, Set;
    if handlers != [] {
      var front, event := handlers[..|handlers| - 1], handlers[|handlers| - 1];
      WithHandlersHas(f, exclusive, front, e);
      var g := WithHandlers(f, exclusive, front);
      SetHas(g.active, event, e);
      SetHas(g.exclusive, event, e);
      assert handlers == front + [event];
    }
  }

  lemma OneNameMore(modules: Modules, names: seq<string>, e: Bits)
    requires names != []
    ensures var front, name := names[..|names| - 1], names[|names| - 1];
            && (HandledIn(modules, names, e) <==>
                || HandledIn(modules, front, e)
                || (name in modules && modules[name].enabled && e in modules[name].handlers))
            && (ExclusiveIn(modules, names, e) <==>
                || ExclusiveIn(modules, front, e)
                || (name in modules && modules[name].enabled && modules[name].exclusive
                    && e in modules[name].handlers))
  {
    var front, name := names[..|names| - 1], names[|names| - 1];
    assert forall other :: other in names <==> other in front || other == name by {
      assert names == front + [name];
    }
  }

  lemma {:induction false} FoldedHas(modules: Modules, order: seq<string>, e: Bits)
    requires OneBit(e)
    ensures Has(Folded(modules, order).active, e) <==> HandledIn(modules, order, e)
    ensures Has(Folded(modules, order).exclusive, e) <==> ExclusiveIn(modules, order, e)
  {
    hide Has, OneBit, WithHandlers;
    if order == [] {
      NothingHas(e);
    } else {
      hide HandledIn, ExclusiveIn;
      var front, name := order[..|order| - 1], order[|order| - 1];
      FoldedHas(modules, front, e);
      OneNameMore(modules, order, e);
      if name in modules {
        WithHandlersHas(Folded(modules, front), modules[name].exclusive, modules[name].handlers, e);
      }
    }
  }

  // Whatever the order, the computed flags are exact.
  lemma FoldDescribes(modules: Modules, order: seq<string>)
    requires IsOrder(modules, order)
    ensures Describes(modules, Folded(modules, order))
  {
    hide Has, OneBit, Folded;
    assert forall name :: name in order <==> name in modules by {
      assert forall name :: name in order <==> name in multiset(order);
    }
    forall e | OneBit(e)
      ensures Has(Folded(modules, order).active, e) <==> Handled(modules, e)
      ensures Has(Folded(modules, order).exclusive, e) <==> HandledExclusively(modules, e)
    {
      FoldedHas(modules, order, e);
    }
  }

  // ... and exact flags are the computed ones, so that all orders give the same words.
  lemma OrderIsIrrelevant(modules: Modules, order: seq<string>, f: EventFlags)
    requires IsOrder(modules, order)
    ensures f == Folded(modules, order) <==> Describes(modules, f)
  {
    hide Has, OneBit, Folded;
    FoldDescribes(modules, order);
    if Describes(modules, f) {
      SameBits(f.active, Folded(modules, order).active);
      SameBits(f.exclusive, Folded(modules, order).exclusive);
    }
  }

  function Switched(modules: Modules, name: string, enabled: bool): Modules {
    if name in modules then modules[name := modules[name].(enabled := enabled)] else modules
  }

  // Switching a module on adds its events to the ones that are handled, and switching it
  // off leaves those of the others.
  lemma SwitchingOn(modules: Modules, name: string, e: Bits)
    requires name in modules
    ensures Handled(Switched(modules, name, true), e) <==> Handled(modules, e) || e in modules[name].handlers
    ensures HandledExclusively(Switched(modules, name, true), e) <==>
              HandledExclusively(modules, e) || (modules[name].exclusive && e in modules[name].handlers)
  {
    var after := Switched(modules, name, true);
    assert after[name].enabled && forall other :: other != name && other in modules ==> after[other] == modules[other];
  }

  lemma SwitchingOff(modules: Modules, name: string, e: Bits)
    ensures Handled(Switched(modules, name, false), e) <==> Handled(modules - {name}, e)
    ensures HandledExclusively(Switched(modules, name, false), e) <==> HandledExclusively(modules - {name}, e)
  {
    var after, others := Switched(modules, name, false), modules - {name};
    assert name in after ==> !after[name].enabled;
    assert forall other :: other != name && other in modules ==> after[other] == modules[other] == others[other];
  }

  class SnakePit {
    const m_snakes: nat
    var m_modules: Modules
    var m_activeEvents: Bits
    var m_activeExclusiveEvents: Bits
    var next_index: nat

    ghost predicate Valid()
      reads this
    {
      next_index < m_snakes && Describes(m_modules, EventFlags(m_activeEvents, m_activeExclusiveEvents))
    }

    constructor (thread_count: nat)
      requires thread_count > 0
      ensures Valid() && m_snakes == thread_count && m_modules == map[] && next_index == 0
    {
      m_snakes, next_index := thread_count, 0;
      m_modules, m_activeEvents, m_activeExclusiveEvents := map[], 0, 0;
      new;
      forall e ensures !Has(0, e) { NothingHas(e); }
    }

    // The modules are visited in any order.
    method CalcActiveEvents()
      modifies `m_activeEvents, `m_activeExclusiveEvents
      ensures Computed(m_modules, EventFlags(m_activeEvents, m_activeExclusiveEvents))
      ensures Describes(m_modules, EventFlags(m_activeEvents, m_activeExclusiveEvents))
    {
      hide WithHandlers, Describes;
      var flags: Bits, flagsExclusive: Bits := 0, 0;
      var todo := m_modules.Keys;
      ghost var order: seq<string> := [];
      while todo != {}
        invariant todo <= m_modules.Keys && multiset(order) + multiset(todo) == multiset(m_modules.Keys)
        invariant EventFlags(flags, flagsExclusive) == Folded(m_modules, order)
        decreases |todo|
      {
        var name :| name in todo;
        assert multiset(todo) == multiset(todo - {name}) + multiset{name};
        assert (order + [name])[..|order|] == order;
        todo, order := todo - {name}, order + [name];
        var mod := m_modules[name];
        if !mod.enabled {
          continue;
        }
        flags, flagsExclusive := AddHandlers(mod, flags, flagsExclusive);
      }
      m_activeEvents, m_activeExclusiveEvents := flags, flagsExclusive;
      assert IsOrder(m_modules, order);
      FoldDescribes(m_modules, order);
    }

    // The inner loop over one module's handlers.
    method AddHandlers(mod: Module, flags: Bits, flagsExclusive: Bits) returns (f: Bits, x: Bits)
      ensures EventFlags(f, x) == WithHandlers(EventFlags(flags, flagsExclusive), mod.exclusive, mod.handlers)
    {
      hide Set, OneBit;
      f, x := flags, flagsExclusive;
      for i := 0 to |mod.handlers|
        invariant EventFlags(f, x)
               == WithHandlers(EventFlags(flags, flagsExclusive), mod.exclusive, mod.handlers[..i])
      {
        assert mod.handlers[..i + 1][..i] == mod.handlers[..i];
        var event := mod.handlers[i];
        f := Set(f, event);
        if mod.exclusive {
          x := Set(x, event);
        }
      }
      assert mod.handlers[..|mod.handlers|] == mod.handlers;
    }

    method EnableModule(name: string)
      requires Valid()
      modifies this
      ensures Valid() && Reconfigures(old(Snapshot()), Switched(old(m_modules), name, true), Snapshot())
      ensures m_modules.Keys == old(m_modules).Keys
      ensures forall other :: other in m_modules && other != name ==> m_modules[other] == old(m_modules)[other]
      ensures name in m_modules ==> m_modules[name] == old(m_modules)[name].(enabled := true)
    {
      if name in m_modules {
        m_modules := m_modules[name := m_modules[name].(enabled := true)];
      }
      CalcActiveEvents();
    }

    method DisableModule(name: string)
      requires Valid()
      modifies this
      ensures Valid() && Reconfigures(old(Snapshot()), Switched(old(m_modules), name, false), Snapshot())
      ensures m_modules.Keys == old(m_modules).Keys
      ensures forall other :: other in m_modules && other != name ==> m_modules[other] == old(m_modules)[other]
      ensures name in m_modules ==> m_modules[name] == old(m_modules)[name].(enabled := false)
    {
      if name in m_modules {
        m_modules := m_modules[name := m_modules[name].(enabled := false)];
      }
      CalcActiveEvents();
    }

    // refreshModulesAll and onSnakesReady, with what interpreter 0 lists.
    method RefreshModules(modules: Modules)
      requires Valid()
      modifies this
      ensures Valid() && Reconfigures(old(Snapshot()), modules, Snapshot())
    {
      m_modules := modules;
      CalcActiveEvents();
    }

    // The selection part of callFunctionList: `ev` is the first argument where it is
    // an event.
    method SelectInterpreter(ev: Option<EventBit>) returns (target: nat)
      requires Valid()
      modifies `next_index
      ensures Valid()
      ensures Selects(m_snakes, old(Snapshot()), ev, Snapshot(), target)
    {
      if ev.Some? && Has(m_activeExclusiveEvents, ev.value) {
        return 0;
      }
      target := next_index;
      next_index := (next_index + 1) % m_snakes;
    }

    method HasEventHandler(event: EventBit) returns (r: bool)
      requires Valid()
      ensures r <==> Handled(m_modules, event)
    {
      r := Has(m_activeEvents, event);
    }

    ghost function Snapshot(): Pit
      reads this
    {
      Pit(m_modules, EventFlags(m_activeEvents, m_activeExclusiveEvents), next_index)
    }
  }

  // ----- Runs of calls and configuration changes

  datatype Pit = Pit(modules: Modules, flags: EventFlags, next: nat)

  ghost predicate IsExclusive(s: Pit, ev: Option<EventBit>) {
    ev.Some? && Has(s.flags.exclusive, ev.value)
  }

  ghost predicate Selects(n: nat, s: Pit, ev: Option<EventBit>, s': Pit, target: nat) {
    if IsExclusive(s, ev) then s' == s && target == 0
    else n > 0 && target == s.next && s' == s.(next := (s.next + 1) % n)
  }

  datatype Op = Call(ev: Option<EventBit>) | Enable(name: string) | Disable(name: string) | Refresh(modules: Modules)

  // A configuration change computes the flags anew, in some order, and leaves the
  // cursor alone.
  ghost predicate Reconfigures(s: Pit, modules: Modules, s': Pit) {
    s'.modules == modules && s'.next == s.next && Computed(modules, s'.flags)
  }

  ghost predicate Does(n: nat, s: Pit, op: Op, s': Pit, target: nat) {
    match op
    case Call(ev) => Selects(n, s, ev, s', target)
    case Enable(name) => Reconfigures(s, Switched(s.modules, name, true), s')
    case Disable(name) => Reconfigures(s, Switched(s.modules, name, false), s')
    case Refresh(modules) => Reconfigures(s, modules, s')
  }

  // states[i] before and states[i + 1] after ops[i]; targets[i] matters for calls.
  ghost predicate IsRun(n: nat, ops: seq<Op>, states: seq<Pit>, targets: seq<nat>) {
    && |states| == |ops| + 1 && |targets| == |ops|
    && forall i :: 0 <= i < |ops| ==> Does(n, states[i], ops[i], states[i + 1], targets[i])
  }

  // Where the calls that are not pinned went, in order.
  ghost function Shared(ops: seq<Op>, states: seq<Pit>, targets: seq<nat>): seq<nat>
    requires |states| == |ops| + 1 && |targets| == |ops|
  {
    if ops == [] then []
    else
      var k := |ops| - 1;
      Shared(ops[..k], states[..k + 1], targets[..k])
        + if ops[k].Call? && !IsExclusive(states[k], ops[k].ev) then [targets[k]] else []
  }

  // The interpreter whose turn it is after `j` shared calls.
  function InTurn(start: nat, j: nat, n: nat): nat
    requires n > 0
  {
    (start + j) % n
  }

  lemma TurnAdvances(start: nat, j: nat, n: nat)
    requires n > 0
    ensures InTurn(start, j, n) < n && (InTurn(start, j, n) + 1) % n == InTurn(start, j + 1, n)
  {
    NextResidue(start + j, n);
    if InTurn(start, j, n) + 1 < n {
      SmallResidue(InTurn(start, j, n) + 1, n);
    }
  }

  // The j-th shared call goes to interpreter InTurn(start, j), however pinned calls
  // and configuration changes interleave.
  lemma {:induction false} SharedInTurn(n: nat, ops: seq<Op>, states: seq<Pit>, targets: seq<nat>)
    requires IsRun(n, ops, states, targets) && states[0].next < n
    ensures var shared := Shared(ops, states, targets);
            && states[|ops|].next == InTurn(states[0].next, |shared|, n)
            && forall j :: 0 <= j < |shared| ==> shared[j] == InTurn(states[0].next, j, n)
  {
    hide Has, Computed, InTurn;
    if ops == [] {
      FirstTurn(states[0].next, n);
    } else {
      var k := |ops| - 1;
      SharedInTurn(n, ops[..k], states[..k + 1], targets[..k]);
      TurnAdvances(states[0].next, |Shared(ops[..k], states[..k + 1], targets[..k])|, n);
    }
  }

  lemma FirstTurn(start: nat, n: nat)
    requires start < n
    ensures InTurn(start, 0, n) == start
  {
    SmallResidue(start, n);
  }

  // Any n consecutive shared calls reach each of the n interpreters exactly once.
  lemma FairDispatch(n: nat, ops: seq<Op>, states: seq<Pit>, targets: seq<nat>, r: nat, k: nat)
    requires IsRun(n, ops, states, targets) && states[0].next < n
    requires r + n <= |Shared(ops, states, targets)| && k < n
    ensures var shared := Shared(ops, states, targets);
            exists j :: r <= j < r + n && shared[j] == k && forall i :: r <= i < r + n && shared[i] == k ==> i == j
  {
    hide Shared, Does;
    var shared := Shared(ops, states, targets);
    var start := states[0].next;
    SharedInTurn(n, ops, states, targets);
    var j := NextWith(start + r, n, k) - start;
    assert shared[j] == k;
    forall i | r <= i < r + n && shared[i] == k ensures i == j {
      if i <= j {
        ResidueIsUnique(start + i, start + j, n);
      } else {
        ResidueIsUnique(start + j, start + i, n);
      }
    }
  }

  // From exact flags on, the flags are exact at every point of a run ...
  lemma {:induction false} FlagsStayExact(n: nat, ops: seq<Op>, states: seq<Pit>, targets: seq<nat>, i: nat)
    requires IsRun(n, ops, states, targets) && i <= |ops|
    requires Describes(states[0].modules, states[0].flags)
    ensures Describes(states[i].modules, states[i].flags)
  {
    hide Has, Describes, Folded, IsOrder;
    if i > 0 {
      FlagsStayExact(n, ops, states, targets, i - 1);
      assert Does(n, states[i - 1], ops[i - 1], states[i], targets[i - 1]);
      if !ops[i - 1].Call? {
        var order :| IsOrder(states[i].modules, order) && states[i].flags == Folded(states[i].modules, order);
        FoldDescribes(states[i].modules, order);
      }
    }
  }

  // ... so an event that some enabled exclusive module handles always goes to
  // interpreter 0, and only active events are pinned.
  lemma ExclusiveEventsArePinned(n: nat, ops: seq<Op>, states: seq<Pit>, targets: seq<nat>, i: nat, e: EventBit)
    requires IsRun(n, ops, states, targets) && i < |ops| && ops[i] == Call(Some(e))
    requires Describes(states[0].modules, states[0].flags)
    ensures HandledExclusively(states[i].modules, e) ==> targets[i] == 0 && states[i + 1] == states[i]
    ensures !HandledExclusively(states[i].modules, e) ==> targets[i] == states[i].next
    ensures Has(states[i].flags.exclusive, e) ==> Has(states[i].flags.active, e)
  {
    hide Has, OneBit;
    FlagsStayExact(n, ops, states, targets, i);
    assert Does(n, states[i], ops[i], states[i + 1], targets[i]);
  }
}
