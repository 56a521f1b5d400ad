/**
 * The undo component record of Sources/UndoComponent.swift.
 *
 * A component bundles the object a mutation works on, the action that performs the
 * mutation (and registers its inverse), an optional action name and an animation flag.
 * All four fields are `let` constants in the source, so a component is a value: every
 * derivation below builds a new record and the receiver is left as it was.
 */
module Component {
  import opened Wrappers

  /** The fileprivate memberwise initializer is the datatype constructor itself. */
  datatype UndoComponent<T, A> = UndoComponent(target: T, action: A, actionName: Option<string>, animate: bool)

  /** The public initializer: no action name and not animated. */
  function New<T, A>(target: T, action: A): (c: UndoComponent<T, A>)
    ensures c.target == target && c.action == action
    ensures c.actionName == None && !c.animate
  {
    UndoComponent(target, action, None, false)
  }

  /** `named(_:)`: replaces the action name and nothing else. */
  function Named<T, A>(c: UndoComponent<T, A>, name: string): (r: UndoComponent<T, A>)
    ensures r.actionName == Some(name)
    ensures r.target == c.target && r.action == c.action && r.animate == c.animate
  {
    UndoComponent(c.target, c.action, Some(name), c.animate)
  }

  /** `animated()`: sets the animation flag and nothing else. */
  function Animated<T, A>(c: UndoComponent<T, A>): (r: UndoComponent<T, A>)
    ensures r.animate
    ensures r.target == c.target && r.action == c.action && r.actionName == c.actionName
  {
    UndoComponent(c.target, c.action, c.actionName, true)
  }

  /** `replacingAction(with:)`: swaps the action and keeps target, name and animation flag. */
  function ReplacingAction<T, A>(c: UndoComponent<T, A>, action: A): (r: UndoComponent<T, A>)
    ensures r.action == action
    ensures r.target == c.target && r.actionName == c.actionName && r.animate == c.animate
  {
    UndoComponent(c.target, action, c.actionName, c.animate)
  }

  /** Marking a component animated twice is the same as marking it once. */
  lemma AnimatedIdempotent<T, A>(c: UndoComponent<T, A>)
    ensures Animated(Animated(c)) == Animated(c)
  {
  }

  /** Naming twice keeps only the last name. */
  lemma NamedLastWins<T, A>(c: UndoComponent<T, A>, first: string, second: string)
    ensures Named(Named(c, first), second) == Named(c, second)
  {
  }

  /** Naming and animating touch different fields, so their order does not matter. */
  lemma NamedAnimatedCommute<T, A>(c: UndoComponent<T, A>, name: string)
    ensures Named(Animated(c), name) == Animated(Named(c, name))
  {
  }

  /**
   * Decorations survive a change of action: replacing the action of a named, animated
   * component gives the named, animated component of the new action.
   */
  lemma ReplacingActionKeepsDecorations<T, A>(c: UndoComponent<T, A>, name: string, action: A)
    ensures ReplacingAction(Animated(Named(c, name)), action) == Animated(Named(ReplacingAction(c, action), name))
  {
  }
}
