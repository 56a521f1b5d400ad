/**
 * The runner of Sources/withUndoTracking.swift, and the undo manager it drives.
 *
 * `WithUndoTracking` calls the builder once, names the undo group when the component
 * has a name, runs the action through the animation wrapper, and hands the action a
 * `registerUndo` capability. That capability does not call the inverse builder: it
 * registers a handler with the undo manager which, when the manager fires it, re-enters
 * the runner with the original component carrying the inverse's action. Redo is
 * therefore the undo of an undo, and the name and animation flag of the first call
 * travel with every later registration.
 *
 * The undo manager is Foundation's `UndoManager`, whose internals are not part of this
 * model. `UndoManager` below is a small stand-in with the behaviour the test in
 * Tests/Essentials.swift expects of it: an undo stack, a redo stack, and a mode.
 * Registering while in normal mode pushes onto the undo stack and clears the redo
 * stack; while undoing it pushes onto the redo stack; while redoing it pushes onto the
 * undo stack. The name given with `setActionName` is attached to the next registration.
 */
module Tracking {
  import opened Wrappers
  import opened Component
  import opened Mutators

  /** A component over a target object, with a defunctionalised action. */
  type Comp<!E> = UndoComponent<Document<E>, Op<E>>

  /** An inverse builder, such as `{ target.remove(at: index, from: keyPath) }`. */
  datatype InverseBuilder<!E> = InverseBuilder(target: Document<E>, inverse: Op<E>)

  /** Calling an inverse builder: every mutator returns `UndoComponent(target: self) { ... }`. */
  function Call<E>(b: InverseBuilder<E>): (c: Comp<E>)
    ensures c.target == b.target && c.action == b.inverse
    ensures c.actionName == None && !c.animate
  {
    New(b.target, b.inverse)
  }

  /**
   * The handler `_registerUndo` registers: re-enter the runner with
   * `component.replacingAction(with: builder().action)`.
   */
  datatype Handler<!E> = Reenter(component: Comp<E>, builder: InverseBuilder<E>)

  /** The builder closure given to the runner: a caller's, or the one a fired handler passes. */
  datatype Builder<!E> = Returning(component: Comp<E>) | Replaying(handler: Handler<E>)

  /**
   * Calling a builder. A replay keeps the target, name and animation flag of the component
   * it was registered by, and takes only the action from the inverse builder.
   */
  function Build<E>(b: Builder<E>): (c: Comp<E>)
    ensures b.Returning? ==> c == b.component
    ensures b.Replaying? ==>
      && c.action == b.handler.builder.inverse
      && c.target == b.handler.component.target
      && c.actionName == b.handler.component.actionName
      && c.animate == b.handler.component.animate
  {
    match b
    case Returning(c) => c
    case Replaying(Reenter(c, ib)) => ReplacingAction(c, Call(ib).action)
  }

  // ---------------------------------------------------------------------------
  // The undo manager (assumed behaviour)
  // ---------------------------------------------------------------------------

  datatype Mode = Normal | Undoing | Redoing

  /** One registered handler for a target, with the action name of its group. */
  datatype Registration<!E> = Registration(target: Document<E>, handler: Handler<E>, name: Option<string>)

  /** The abstract state of an undo manager. */
  datatype ManagerState<!E> = ManagerState(
    undoStack: seq<Registration<E>>,
    redoStack: seq<Registration<E>>,
    mode: Mode,
    actionName: Option<string>)

  function Last<T>(s: seq<T>): T
    requires s != []
  {
    s[|s| - 1]
  }

  /** `registerUndo(withTarget:handler:)`. */
  function Registered<E>(h: ManagerState<E>, target: Document<E>, handler: Handler<E>): (r: ManagerState<E>)
  {
    var entry := Registration(target, handler, h.actionName);
    match h.mode
    case Normal => h.(undoStack := h.undoStack + [entry], redoStack := [], actionName := None)
    case Undoing => h.(redoStack := h.redoStack + [entry], actionName := None)
    case Redoing => h.(undoStack := h.undoStack + [entry], actionName := None)
  }

  /**
   * A registration adds exactly one entry, carrying the pending name, to the stack the
   * mode selects. Only a registration in normal mode discards the redo history.
   */
  lemma RegistrationPushesOne<E>(h: ManagerState<E>, target: Document<E>, handler: Handler<E>)
    ensures var r := Registered(h, target, handler);
      var entry := Registration(target, handler, h.actionName);
      && r.mode == h.mode && r.actionName == None
      && (h.mode == Undoing ==> r.undoStack == h.undoStack && r.redoStack == h.redoStack + [entry])
      && (h.mode != Undoing ==> r.undoStack == h.undoStack + [entry])
      && (h.mode == Redoing ==> r.redoStack == h.redoStack)
      && (h.mode == Normal ==> r.redoStack == [])
  {
  }

  /** `undoMenuItemTitle` / `redoMenuItemTitle`: the verb, then the name of the top entry if any. */
  function MenuItemTitle<E>(verb: string, stack: seq<Registration<E>>): string
  {
    if stack != [] && Last(stack).name.Some? then verb + " " + Last(stack).name.value else verb
  }

  // ---------------------------------------------------------------------------
  // The runner, as a function of the states it works on
  // ---------------------------------------------------------------------------

  /** What the runner does, in order, with the builder, the undo manager and the action. */
  datatype Event<!E> =
    | BuilderCalled
    | ActionNameSet(name: string)
    | ActionRan(target: Document<E>, action: Op<E>, animated: bool)
    | Trapped
    | UndoRegistered(target: Document<E>)

  /** The undo manager (if any), the target's state and the events of one runner entry. */
  datatype Tracked<!E> = Tracked(manager: Option<ManagerState<E>>, doc: Doc<E>, trace: seq<Event<E>>)

  /**
   * One entry of the runner, given the undo manager's state (None for a nil manager)
   * and the state `d` of the built component's target.
   */
  function Track<E>(manager: Option<ManagerState<E>>, d: Doc<E>, b: Builder<E>): (r: Tracked<E>)
    ensures r.manager.Some? <==> manager.Some?
  {
    var c := Build(b);
    var naming := manager.Some? && c.actionName.Some?;
    var named := if naming then Some(manager.value.(actionName := c.actionName)) else manager;
    var o := Apply(c.action, d);
    var registering := o.Done? && manager.Some?;
    var registered :=
      if registering then Some(Registered(named.value, c.target, Reenter(c, InverseBuilder(c.target, o.inverse))))
      else named;
    var trace :=
      [BuilderCalled]
      + (if naming then [ActionNameSet(c.actionName.value)] else [])
      + [ActionRan(c.target, c.action, c.animate)]
      + (if o.Trap? then [Trapped] else if registering then [UndoRegistered(c.target)] else []);
    Tracked(registered, o.State(), trace)
  }

  /** Fires a registration: the manager is in undo or redo mode while the runner re-enters. */
  function Fired<E>(h: ManagerState<E>, d: Doc<E>, entry: Registration<E>): (ManagerState<E>, Doc<E>)
  {
    var t := Track(Some(h), d, Replaying(entry.handler));
    (t.manager.value.(mode := Normal), t.doc)
  }

  /** `undo()`: pops the top undo entry and fires it in undo mode, in a new unnamed group. */
  function Undone<E>(h: ManagerState<E>, d: Doc<E>): (ManagerState<E>, Doc<E>)
    requires h.undoStack != []
  {
    Fired(h.(undoStack := h.undoStack[..|h.undoStack| - 1], mode := Undoing, actionName := None), d, Last(h.undoStack))
  }

  /** `redo()`: pops the top redo entry and fires it in redo mode, in a new unnamed group. */
  function Redone<E>(h: ManagerState<E>, d: Doc<E>): (ManagerState<E>, Doc<E>)
    requires h.redoStack != []
  {
    Fired(h.(redoStack := h.redoStack[..|h.redoStack| - 1], mode := Redoing, actionName := None), d, Last(h.redoStack))
  }

  /** The one target a fired top entry acts on, if there is a top entry. */
  function FiredTargets<E>(stack: seq<Registration<E>>): set<Document<E>>
  {
    if stack == [] then {} else {Last(stack).handler.component.target}
  }

  // ---------------------------------------------------------------------------
  // The imperative runner and undo manager
  // ---------------------------------------------------------------------------

  /** The stand-in for Foundation's `UndoManager`. */
  class UndoManager<E> {
    var undoStack: seq<Registration<E>>
    var redoStack: seq<Registration<E>>
    var mode: Mode
    var actionName: Option<string>

    constructor ()
      ensures State() == ManagerState([], [], Normal, None)
    {
      undoStack, redoStack, mode, actionName := [], [], Normal, None;
    }

    function State(): ManagerState<E>
      reads this
    {
      ManagerState(undoStack, redoStack, mode, actionName)
    }

    predicate CanUndo()
      reads this
    {
      undoStack != []
    }

    predicate CanRedo()
      reads this
    {
      redoStack != []
    }

    function UndoMenuItemTitle(): string
      reads this
    {
      MenuItemTitle("Undo", undoStack)
    }

    function RedoMenuItemTitle(): string
      reads this
    {
      MenuItemTitle("Redo", redoStack)
    }

    method SetActionName(name: string)
      modifies this
      ensures State() == old(State()).(actionName := Some(name))
    {
      actionName := Some(name);
    }

    method RegisterUndo(target: Document<E>, handler: Handler<E>)
      modifies this
      ensures State() == Registered(old(State()), target, handler)
    {
      var entry := Registration(target, handler, actionName);
      match mode {
        case Normal =>
          undoStack := undoStack + [entry];
          redoStack := [];
        case Undoing =>
          redoStack := redoStack + [entry];
        case Redoing =>
          undoStack := undoStack + [entry];
      }
      actionName := None;
    }

    method Undo()
      modifies this, FiredTargets(undoStack)
      ensures old(undoStack) == [] ==> State() == old(State())
      ensures old(undoStack) != [] ==>
        var target := Last(old(undoStack)).handler.component.target;
        (State(), target.Value()) == Undone(old(State()), old(target.Value()))
    {
      if undoStack == [] {
        return;
      }
      var entry := Last(undoStack);
      undoStack := undoStack[..|undoStack| - 1];
      mode := Undoing;
      actionName := None;
      var trace := WithUndoTracking(this, Replaying(entry.handler));
      mode := Normal;
    }

    method Redo()
      modifies this, FiredTargets(redoStack)
      ensures old(redoStack) == [] ==> State() == old(State())
      ensures old(redoStack) != [] ==>
        var target := Last(old(redoStack)).handler.component.target;
        (State(), target.Value()) == Redone(old(State()), old(target.Value()))
    {
      if redoStack == [] {
        return;
      }
      var entry := Last(redoStack);
      redoStack := redoStack[..|redoStack| - 1];
      mode := Redoing;
      actionName := None;
      var trace := WithUndoTracking(this, Replaying(entry.handler));
      mode := Normal;
    }
  }

  /**
   * `withUndoTracking(_:builder:)`. The animation wrapper runs the mutation block once,
   * directly or inside a transition; the returned trace records which.
   */
  method WithUndoTracking<E>(manager: UndoManager?<E>, builder: Builder<E>) returns (trace: seq<Event<E>>)
    modifies manager, Build(builder).target
    ensures var t := Track(if manager == null then None else Some(old(manager.State())), old(Build(builder).target.Value()), builder);
      && trace == t.trace
      && Build(builder).target.Value() == t.doc
      && (manager != null ==> Some(manager.State()) == t.manager)
  {
    var component := Build(builder);
    trace := [BuilderCalled];
    if manager != null && component.actionName.Some? {
      manager.SetActionName(component.actionName.value);
      trace := trace + [ActionNameSet(component.actionName.value)];
    }
    var inverse, trapped := component.target.Perform(component.action);
    trace := trace + [ActionRan(component.target, component.action, component.animate)];
    if trapped {
      trace := trace + [Trapped];
    } else if manager != null {
      manager.RegisterUndo(component.target, Reenter(component, InverseBuilder(component.target, inverse)));
      trace := trace + [UndoRegistered(component.target)];
    }
  }
}
