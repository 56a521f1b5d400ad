/**
 * What the runner of Sources/withUndoTracking.swift guarantees: the order and number of
 * the calls one entry makes, and what repeated undo and redo do to the target and to the
 * decorations of the first call.
 */
module TrackingProperties {
  import opened Wrappers
  import opened Component
  import opened Mutators
  import opened Tracking

  /** The kinds of runner events. */
  datatype Kind = BuilderCall | NameSet | ActionRun | TrapHit | UndoAdded

  function KindOf<E>(e: Event<E>): Kind
  {
    match e
    case BuilderCalled => BuilderCall
    case ActionNameSet(_) => NameSet
    case ActionRan(_, _, _) => ActionRun
    case Trapped => TrapHit
    case UndoRegistered(_) => UndoAdded
  }

  /** How many events of a trace are of the given kind. */
  function Count<E>(trace: seq<Event<E>>, kind: Kind): (n: nat)
    ensures n <= |trace|
    decreases |trace|
  {
    if trace == [] then 0 else (if KindOf(trace[0]) == kind then 1 else 0) + Count(trace[1..], kind)
  }

  lemma {:induction false} CountConcat<E>(a: seq<Event<E>>, b: seq<Event<E>>, kind: Kind)
    ensures Count(a + b, kind) == Count(a, kind) + Count(b, kind)
    decreases |a|
  {
    if a == [] {
      assert a + b == b;
    } else {
      assert (a + b)[0] == a[0];
      assert (a + b)[1..] == a[1..] + b;
      CountConcat(a[1..], b, kind);
    }
  }

  /** Count of an empty or one-event trace. */
  lemma CountSmall<E>(p: seq<Event<E>>, kind: Kind)
    requires |p| <= 1
    ensures Count(p, kind) == if p != [] && KindOf(p[0]) == kind then 1 else 0
  {
    if p != [] {
      assert p[1..] == [];
    }
  }

  /** Counting over a trace of four parts, each empty or a single event. */
  lemma CountParts<E>(a: seq<Event<E>>, n: seq<Event<E>>, r: seq<Event<E>>, z: seq<Event<E>>, kind: Kind)
    requires |a| <= 1 && |n| <= 1 && |r| <= 1 && |z| <= 1
    ensures Count(a + n + r + z, kind)
      == (if a != [] && KindOf(a[0]) == kind then 1 else 0)
       + (if n != [] && KindOf(n[0]) == kind then 1 else 0)
       + (if r != [] && KindOf(r[0]) == kind then 1 else 0)
       + (if z != [] && KindOf(z[0]) == kind then 1 else 0)
  {
    CountConcat(a + n + r, z, kind);
    CountConcat(a + n, r, kind);
    CountConcat(a, n, kind);
    CountSmall(a, kind);
    CountSmall(n, kind);
    CountSmall(r, kind);
    CountSmall(z, kind);
  }

  /** The parts of one entry's trace: the builder call, the naming, the action, the outcome. */
  lemma TraceParts<E>(manager: Option<ManagerState<E>>, d: Doc<E>, b: Builder<E>)
    ensures var c := Build(b);
      var o := Apply(c.action, d);
      Track(manager, d, b).trace
        == [BuilderCalled]
           + (if manager.Some? && c.actionName.Some? then [ActionNameSet(c.actionName.value)] else [])
           + [ActionRan(c.target, c.action, c.animate)]
           + (if o.Trap? then [Trapped] else if manager.Some? then [UndoRegistered(c.target)] else [])
  {
  }

  /** How many times one kind of event occurs in one runner entry. */
  lemma CountInEntry<E>(manager: Option<ManagerState<E>>, d: Doc<E>, b: Builder<E>, kind: Kind)
    ensures var c := Build(b);
      var o := Apply(c.action, d);
      Count(Track(manager, d, b).trace, kind)
        == (if kind == BuilderCall || kind == ActionRun then 1 else 0)
         + (if kind == NameSet && manager.Some? && c.actionName.Some? then 1 else 0)
         + (if kind == TrapHit && o.Trap? then 1 else 0)
         + (if kind == UndoAdded && o.Done? && manager.Some? then 1 else 0)
  {
    var c := Build(b);
    var o := Apply(c.action, d);
    var a: seq<Event<E>> := [BuilderCalled];
    var n: seq<Event<E>> := if manager.Some? && c.actionName.Some? then [ActionNameSet(c.actionName.value)] else [];
    var r: seq<Event<E>> := [ActionRan(c.target, c.action, c.animate)];
    var z: seq<Event<E>> := if o.Trap? then [Trapped] else if manager.Some? then [UndoRegistered(c.target)] else [];
    TraceParts(manager, d, b);
    CountParts(a, n, r, z, kind);
  }

  /**
   * One runner entry calls the builder exactly once and runs the action exactly once; it
   * gives the undo manager an action name exactly when there is a manager and the
   * component is named, and registers exactly one undo exactly when there is a manager
   * and the action did not trap.
   */
  lemma RunnerCounts<E>(manager: Option<ManagerState<E>>, d: Doc<E>, b: Builder<E>)
    ensures var c := Build(b);
      var t := Track(manager, d, b);
      && Count(t.trace, BuilderCall) == 1
      && Count(t.trace, ActionRun) == 1
      && Count(t.trace, NameSet) == (if manager.Some? && c.actionName.Some? then 1 else 0)
      && Count(t.trace, UndoAdded) == (if manager.Some? && Apply(c.action, d).Done? then 1 else 0)
  {
    CountInEntry(manager, d, b, BuilderCall);
    CountInEntry(manager, d, b, ActionRun);
    CountInEntry(manager, d, b, NameSet);
    CountInEntry(manager, d, b, UndoAdded);
  }

  /**
   * The order of one runner entry: the builder is called first; the action runs on the
   * built component's target with its action and through the wrapper its animation flag
   * selects; the name handed to the undo manager is the component's and is handed over
   * before the action runs; the undo is registered after the action ran. The target ends
   * in the state the action leaves, and a nil manager stays nil.
   */
  lemma RunnerOrder<E>(manager: Option<ManagerState<E>>, d: Doc<E>, b: Builder<E>)
    ensures var c := Build(b);
      var t := Track(manager, d, b);
      && |t.trace| >= 2 && t.trace[0] == BuilderCalled
      && (forall k :: 0 <= k < |t.trace| && t.trace[k].ActionRan? ==> t.trace[k] == ActionRan(c.target, c.action, c.animate))
      && (forall k :: 0 <= k < |t.trace| && t.trace[k].ActionNameSet? ==> c.actionName == Some(t.trace[k].name))
      && (forall k, l :: 0 <= k < |t.trace| && 0 <= l < |t.trace| && t.trace[k].ActionNameSet? && t.trace[l].ActionRan? ==> k < l)
      && (forall k, l :: 0 <= k < |t.trace| && 0 <= l < |t.trace| && t.trace[k].ActionRan? && t.trace[l].UndoRegistered? ==> k < l)
      && t.doc == Apply(c.action, d).State()
      && (manager.None? ==> t.manager.None?)
  {
    TraceParts(manager, d, b);
  }

  // ---------------------------------------------------------------------------
  // Repeated undo and redo
  // ---------------------------------------------------------------------------

  /**
   * Fires a handler on the state of its target: the handler the re-entered runner
   * registers in turn, and the new state; None if the action traps.
   */
  function Rotate<E>(h: Handler<E>, d: Doc<E>): Option<(Handler<E>, Doc<E>)>
  {
    var c := Build(Replaying(h));
    var o := Apply(c.action, d);
    if o.Done? then Some((Reenter(c, InverseBuilder(c.target, o.inverse)), o.after)) else None
  }

  /** Fires a handler, then the handler that registers, and so on, n times. */
  function Rotations<E>(h: Handler<E>, d: Doc<E>, n: nat): Option<(Handler<E>, Doc<E>)>
    decreases n
  {
    if n == 0 then Some((h, d))
    else
      match Rotate(h, d)
      case None => None
      case Some((h1, d1)) => Rotations(h1, d1, n - 1)
  }

  /**
   * Firing a registration re-enters the runner, which registers exactly the handler
   * `Rotate` gives, under the name of the original component when it has one.
   */
  lemma FiringRegistersRotation<E>(m: ManagerState<E>, d: Doc<E>, h: Handler<E>)
    ensures var t := Track(Some(m), d, Replaying(h));
      var named := if h.component.actionName.Some? then m.(actionName := h.component.actionName) else m;
      && (Rotate(h, d).Some? ==> t.manager == Some(Registered(named, h.component.target, Rotate(h, d).value.0)))
      && (Rotate(h, d).Some? ==> t.doc == Rotate(h, d).value.1)
      && (Rotate(h, d).None? ==> t.manager == Some(named))
  {
  }

  /**
   * The target, action name and animation flag of the first call survive any number of
   * undo/redo cycles, although the action changes on each.
   */
  lemma {:induction false} DecorationsPersist<E>(h: Handler<E>, d: Doc<E>, n: nat)
    ensures Rotations(h, d, n).Some? ==>
      var c := Rotations(h, d, n).value.0.component;
      && c.target == h.component.target
      && c.actionName == h.component.actionName
      && c.animate == h.component.animate
    decreases n
  {
    if n > 0 {
      match Rotate(h, d)
      case None =>
      case Some((h1, d1)) =>
        DecorationsPersist(h1, d1, n - 1);
    }
  }

  /**
   * Undo and redo alternate for ever. After a reversible action took `d` to `after`,
   * the handler it registers fires as many times as wanted without trapping, and the
   * target is back at `d` after an odd number of fires and at `after` after an even one.
   * `atAfter` says which of the two states the handler `h` is ready to undo.
   */
  lemma {:induction false} CyclesAlternate<E>(op: Op<E>, d: Doc<E>, h: Handler<E>, atAfter: bool, n: nat)
    requires Reversible(op, d)
    requires atAfter ==> Apply(h.builder.inverse, Apply(op, d).after) == Apply(Apply(op, d).inverse, Apply(op, d).after)
    requires !atAfter ==> Apply(h.builder.inverse, d) == Apply(op, d)
    ensures Rotations(h, if atAfter then Apply(op, d).after else d, n).Some?
    ensures Rotations(h, if atAfter then Apply(op, d).after else d, n).value.1
            == if (n % 2 == 0) == atAfter then Apply(op, d).after else d
    decreases n
  {
    UndoRedoCycle(op, d);
    if n > 0 {
      var start := if atAfter then Apply(op, d).after else d;
      var h1 := Rotate(h, start).value.0;
      CyclesAlternate(op, d, h1, !atAfter, n - 1);
    }
  }

  /**
   * The registration a top-level call in normal mode makes: one entry on the undo
   * stack, under the component's name if it has one and the pending name otherwise,
   * holding the handler that replays the inverse on the component's target.
   */
  lemma ForwardStep<E>(m: ManagerState<E>, d: Doc<E>, c: Comp<E>)
    requires m.mode == Normal
    requires Apply(c.action, d).Done?
    ensures var t := Track(Some(m), d, Returning(c));
      var o := Apply(c.action, d);
      var name := if c.actionName.Some? then c.actionName else m.actionName;
      && t.doc == o.after
      && t.manager == Some(ManagerState(
           m.undoStack + [Registration(c.target, Reenter(c, InverseBuilder(c.target, o.inverse)), name)],
           [], Normal, None))
  {
  }

  /**
   * `undo()` of a top entry whose handler does not trap: the entry leaves the undo
   * stack, and the handler registered in turn lands on the redo stack under the name of
   * the original component.
   */
  lemma UndoStep<E>(m: ManagerState<E>, d: Doc<E>)
    requires m.undoStack != [] && m.mode == Normal
    requires Rotate(Last(m.undoStack).handler, d).Some?
    ensures var h := Last(m.undoStack).handler;
      var (h1, d1) := Rotate(h, d).value;
      Undone(m, d) == (
        ManagerState(m.undoStack[..|m.undoStack| - 1],
                     m.redoStack + [Registration(h.component.target, h1, h.component.actionName)],
                     Normal, None),
        d1)
  {
    var h := Last(m.undoStack).handler;
    FiringRegistersRotation(m.(undoStack := m.undoStack[..|m.undoStack| - 1], mode := Undoing, actionName := None), d, h);
  }

  /**
   * `redo()` of a top entry whose handler does not trap: the entry leaves the redo
   * stack, and the handler registered in turn lands on the undo stack under the name of
   * the original component.
   */
  lemma RedoStep<E>(m: ManagerState<E>, d: Doc<E>)
    requires m.redoStack != [] && m.mode == Normal
    requires Rotate(Last(m.redoStack).handler, d).Some?
    ensures var h := Last(m.redoStack).handler;
      var (h1, d1) := Rotate(h, d).value;
      Redone(m, d) == (
        ManagerState(m.undoStack + [Registration(h.component.target, h1, h.component.actionName)],
                     m.redoStack[..|m.redoStack| - 1],
                     Normal, None),
        d1)
  {
    var h := Last(m.redoStack).handler;
    FiringRegistersRotation(m.(redoStack := m.redoStack[..|m.redoStack| - 1], mode := Redoing, actionName := None), d, h);
  }

  /**
   * The registration the runner makes for a reversible action at top level, undone and
   * then redone. The undo brings the target back to `d`, leaves the undo stack as it was
   * before the call and puts one entry, under the component's name, on the redo stack.
   * The redo brings the target back to the state after the action, empties the redo
   * stack and puts one entry under the same name back on the undo stack, so the menu
   * titles read as after the first call when the component is named.
   */
  lemma UndoThenRedo<E>(m: ManagerState<E>, d: Doc<E>, c: Comp<E>)
    requires m.mode == Normal
    requires Reversible(c.action, d)
    ensures var after := Apply(c.action, d).after;
      var h := Reenter(c, InverseBuilder(c.target, Apply(c.action, d).inverse));
      var name := if c.actionName.Some? then c.actionName else m.actionName;
      var m1 := ManagerState(m.undoStack + [Registration(c.target, h, name)], [], Normal, None);
      && Track(Some(m), d, Returning(c)) == Tracked(Some(m1), after, Track(Some(m), d, Returning(c)).trace)
      && Rotate(h, after).Some?
      && var h1 := Rotate(h, after).value.0;
      && var m2 := ManagerState(m.undoStack, [Registration(c.target, h1, c.actionName)], Normal, None);
      && Undone(m1, after) == (m2, d)
      && Rotate(h1, d).Some?
      && Redone(m2, d) == (ManagerState(m.undoStack + [Registration(c.target, Rotate(h1, d).value.0, c.actionName)], [], Normal, None), after)
  {
    UndoRedoCycle(c.action, d);
    var o := Apply(c.action, d);
    ForwardStep(m, d, c);
    var h := Reenter(c, InverseBuilder(c.target, o.inverse));
    var name := if c.actionName.Some? then c.actionName else m.actionName;
    var m1 := ManagerState(m.undoStack + [Registration(c.target, h, name)], [], Normal, None);
    assert m1.undoStack[..|m1.undoStack| - 1] == m.undoStack;
    assert Last(m1.undoStack).handler == h;
    UndoStep(m1, o.after);
    var u := Apply(o.inverse, o.after);
    assert Rotate(h, o.after) == Some((Reenter(ReplacingAction(c, o.inverse), InverseBuilder(c.target, u.inverse)), d));
    var h1 := Rotate(h, o.after).value.0;
    assert Build(Replaying(h1)).action == u.inverse;
    assert Rotate(h1, d).Some?;
    var m2 := ManagerState(m.undoStack, [Registration(c.target, h1, c.actionName)], Normal, None);
    assert m1.redoStack + [Registration(c.target, h1, c.actionName)] == m2.redoStack;
    RedoStep(m2, d);
  }
}
