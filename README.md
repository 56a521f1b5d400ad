# UndoTracking, modelled in Dafny

UndoTracking is a small Swift library for declarative undo and redo. A caller describes
a mutation as an *undo component*. The component holds:

- the target object;
- an action closure, which mutates the target and, inline, registers a builder for its
  own inverse;
- an optional action name;
- an animation flag.

`withUndoTracking(_:builder:)` runs a component against an `UndoManager`. It calls the
builder once and names the undo group if the component is named. It runs the action,
inside `withAnimation` when the component is animated, and hands the action a
`registerUndo` capability. That capability does not build the inverse at once. It
registers a handler with the undo manager. When the handler fires, it re-enters the
runner with the *original* component carrying the inverse's action. Redo is therefore
the undo of an undo, and the name and animation flag of the first call travel through
every later undo and redo. `Methods.swift` supplies ready-made undoable array
mutators, each registering a specific inverse. The test suite drives a counter model
whose `increment()` and `decrement()` register each other.

The project has seven modules:

- `Wrappers`: an `Option` type.
- `Component` (`component.dfy`): the component record and its derivations `named`,
  `animated` and `replacingAction`, as pure functions.
- `Mutators` (`mutators.dfy`): the mutators and the test model's counter steps.
  - Each closure is defunctionalised into a constructor of `Op`.
  - `Apply` states what an action does to the target's state (its array and its counter)
    and which inverse action it registers.
  - The class `Document` is the target object. `Document.Perform` carries an action out
    in place, with the two loops of the source: the collection of removed pairs in
    `removeAll(from:where:)` and the re-insertion loop of the private
    `insert(inserts:keyPath:where:)`.
  - Swift runtime traps (an index out of bounds, `Int` overflow) are the outcome `Trap`.
- `Tracking` (`tracking.dfy`): the runner as the method `WithUndoTracking`, and the undo
  manager it drives as the class `UndoManager`.
  - The runner is proved against the pure function `Track`. Undo and redo are proved
    against `Undone` and `Redone`.
  - Each call records a trace of events: builder called, name set, action run (with its
    animation flag), trap, undo registered.
- `TrackingProperties` (`tracking_properties.dfy`): the runner's call protocol, and what
  any number of undo and redo cycles do.
- `Essentials` (`essentials.dfy`): the undo/redo scenario of the test suite, as a method
  over fresh objects.
- `History` (`history.dfy`): whole histories through the undo manager: n top-level
  calls, then n `undo()`, then n `redo()`. Each stack entry is read through the action
  its handler replays, which ties the manager's stacks to the action lists of
  `Mutators.HistoryRoundTrip`.

The undo manager is Foundation's, and its internals are not part of this model. The
class `UndoManager` is a stand-in with the behaviour the test expects:

- an undo stack, a redo stack, and a mode (normal, undoing or redoing);
- registering in normal mode pushes onto the undo stack and clears the redo stack;
- registering while undoing pushes onto the redo stack;
- registering while redoing pushes onto the undo stack;
- the name given by `setActionName` is attached to the next registration;
- `undo()` and `redo()` pop the top entry and fire it in a new, unnamed group;
- a menu title is the verb, followed by the top entry's name if it has one.

Two mutators do not restore the array when undone. The model keeps both as written and
proves how they fall short:

- `append(contentsOf:)` registers `remove(at: count)`, which takes out one element. The
  undo traps when nothing was appended. It restores the array exactly when one element
  was appended (`AppendContentsUndo`).
- `removeLast(k)` first captures the slice `count - 1 - k ..< count`, which holds k + 1
  elements. So it traps unless `0 <= k < count`, although only k elements are removed.
  Its undo appends all k + 1 captured elements, leaving one element too many
  (`RemoveLastUndo`). For example, on `[1, 2]` with k = 1 it leaves `[1]`, and the undo
  gives `[1, 1, 2]` (`RemoveLastCounterexample`).

Naming follows the code. Every runner entry names its undo group with the name of the
component it runs. A replayed entry runs the *original* component with the inverse's
action swapped in (`replacingAction(with:)`), so a name carried by the inverse's own
component is discarded. Every direction is named with the first call's name.

## Model

| member | source | states |
|---|---|---|
| Component.New | Sources/UndoComponent.swift:66-75 | The public initializer keeps the target and action, with no action name and no animation. |
| Component.Named | Sources/UndoComponent.swift:85-87 | `named(_:)` sets the action name and keeps target, action and animation flag. |
| Component.Animated | Sources/UndoComponent.swift:90-92 | `animated()` sets the animation flag and keeps target, action and name. |
| Component.ReplacingAction | Sources/UndoComponent.swift:28-36 | `replacingAction(with:)` swaps the action and keeps target, name and animation flag. |
| Component.AnimatedIdempotent | Sources/UndoComponent.swift:90-92 | Animating twice is animating once. |
| Component.NamedLastWins | Sources/UndoComponent.swift:85-87 | Naming twice keeps the last name only. |
| Component.NamedAnimatedCommute | Sources/UndoComponent.swift:85-92 | Naming and animating commute. |
| Component.ReplacingActionKeepsDecorations | Sources/UndoComponent.swift:28-92 | Replacing the action of a named, animated component is the named, animated component of the new action. |
| Mutators.RemoveById | Sources/Methods.swift:138-140 | `remove(_:from:)` is a `removeAll` whose predicate selects the given element. |
| Mutators.RemoveByIdSelects | Sources/Methods.swift:138-140 | That predicate holds exactly for the elements whose id equals the given element's id. |
| Mutators.Inserted | Sources/Methods.swift:64 | `Array.insert(_:at:)` at a valid position adds one element, which sits at that position. |
| Mutators.Removed | Sources/Methods.swift:122 | `Array.remove(at:)` at a valid position takes out one element. |
| Mutators.Matches | Sources/Methods.swift:82-87 | The captured pairs are exactly the (offset, element) pairs of the selected elements, in strictly ascending offset order. |
| Mutators.Filter | Sources/Methods.swift:90 | `removeAll(where:)` keeps no selected element, and keeps as many elements as were not captured. |
| Mutators.InsertEach | Sources/Methods.swift:102-104 | Re-inserting pairs that all fit grows the array by one element per pair. |
| Mutators.InsertEachTraps | Sources/Methods.swift:102-104 | Re-inserting traps exactly when some pair's offset lies outside the array as the earlier pairs left it, that is, outside `0 ... count + j` for the j-th pair. |
| Mutators.Apply | Sources/Methods.swift:18-175 | Array actions leave the counter alone, and counter actions leave the array alone. Only actions with a bounds check or overflow can trap. |
| Mutators.Document.CollectMatches | Sources/Methods.swift:82-87 | The `enumerated()` loop collects exactly the pairs `Matches` describes. |
| Mutators.Document.InsertPairs | Sources/Methods.swift:99-105 | The re-insertion loop reaches the state `InsertEach` describes, trapping where it does, and leaves the counter alone. |
| Mutators.Document.Perform | Sources/Methods.swift:18-175 | Running an action in place reaches the state `Apply` gives and returns the inverse it registers, or reports the trap and the state at the trap. |
| Mutators.RemoveUndoesInsert | Sources/Methods.swift:61-71 | `remove(at: i)` undoes `insert(_:at: i)`. |
| Mutators.InsertUndoesRemove | Sources/Methods.swift:118-129 | `insert(removed, at: i)` undoes `remove(at: i)`. |
| Mutators.ReinsertRestores | Sources/Methods.swift:80-110 | Re-inserting the captured pairs, in order, into what `removeAll` left rebuilds the original array, without trapping. |
| Mutators.UndoRedoCycle | Sources/Methods.swift:18-175 | For every reversible action, the registered inverse restores the starting state without trapping. The inverse the undo registers (the redo) behaves exactly like the original action. |
| Mutators.CounterRoundTrip | Tests/Essentials.swift:18-38 | `increment()` adds one and registers `decrement()`, which subtracts one and registers `increment()`, for any start below `Int.max`. |
| Mutators.AppendContentsUndo | Sources/Methods.swift:39-50 | `append(contentsOf:)` appends everything but registers a one-element removal. The undo traps exactly on an empty append and restores exactly on a one-element append. |
| Mutators.RemoveLastUndo | Sources/Methods.swift:142-160 | `removeLast(k)` succeeds exactly when `0 <= k < count` and removes the last k elements. It registers an append of k + 1 elements, whose undo never restores the array. |
| Mutators.RemoveLastCounterexample | Sources/Methods.swift:149-158 | On `[1, 2]`, `removeLast(1)` gives `[1]`, and its undo gives `[1, 1, 2]`. |
| Mutators.HistoryRoundTrip | Sources/Methods.swift:18-175 | After n reversible actions, running the registered inverses newest first returns to the start. Running the actions those register reproduces the forward run, inverses included. |
| Tracking.Call | Sources/withUndoTracking.swift:51 | Calling an inverse builder gives a component of the same target with the inverse action, unnamed and not animated. |
| Tracking.Build | Sources/withUndoTracking.swift:49-53 | A replayed builder keeps the registering component's target, name and animation flag, and takes only the action from the inverse builder. |
| Tracking.RegistrationPushesOne | Tests/Essentials.swift:56-68 | A registration adds one entry, carrying the pending name, to the stack the mode selects. Only a registration in normal mode discards the redo stack. |
| Tracking.Track | Sources/withUndoTracking.swift:28-57 | One runner entry keeps a present manager present and an absent one absent. Its call protocol is stated by `RunnerCounts` and `RunnerOrder`. |
| Tracking.UndoManager.constructor | Tests/Essentials.swift:48 | A new undo manager has empty stacks, normal mode and no pending name. |
| Tracking.UndoManager.SetActionName | Sources/withUndoTracking.swift:35-37 | Setting the action name changes only the pending name. |
| Tracking.UndoManager.RegisterUndo | Sources/withUndoTracking.swift:49-53 | Registering reaches the state `Registered` describes. |
| Tracking.UndoManager.Undo | Tests/Essentials.swift:59 | `undo()` does nothing on an empty undo stack. Otherwise it reaches the manager state and target state `Undone` describes: pop, then re-enter the runner in undo mode. |
| Tracking.UndoManager.Redo | Tests/Essentials.swift:64 | `redo()` does nothing on an empty redo stack. Otherwise it reaches the states `Redone` describes. |
| Tracking.WithUndoTracking | Sources/withUndoTracking.swift:28-57 | The runner produces the trace, target state and manager state `Track` gives, for a present or absent manager. |
| TrackingProperties.CountInEntry | Sources/withUndoTracking.swift:33-56 | The number of events of each kind in one entry. |
| TrackingProperties.RunnerCounts | Sources/withUndoTracking.swift:33-56 | The builder is called once and the action runs once. A name is set exactly when there is a manager and a name. One undo is registered exactly when there is a manager and the action did not trap. |
| TrackingProperties.RunnerOrder | Sources/withUndoTracking.swift:33-56 | The builder is called first. The action runs on the component's target, with its action and animation flag. The name set is the component's and is set before the action runs. The registration comes after the action. The target ends as the action leaves it, and an absent manager stays absent. |
| TrackingProperties.FiringRegistersRotation | Sources/withUndoTracking.swift:46-54 | Firing a handler re-enters the runner, which registers exactly the next handler of the rotation under the original component's name, or nothing if the action traps. |
| TrackingProperties.DecorationsPersist | Sources/withUndoTracking.swift:49-52 | Target, name and animation flag of the first call survive any number of undo and redo cycles. |
| TrackingProperties.CyclesAlternate | Sources/withUndoTracking.swift:46-56 | After a reversible action, its handlers fire any number of times without trapping. The target alternates between the state before and the state after the action. |
| TrackingProperties.ForwardStep | Sources/withUndoTracking.swift:33-56 | A top-level call in normal mode pushes one entry, under the component's name or else the pending one, and clears the redo stack. |
| TrackingProperties.UndoStep | Sources/withUndoTracking.swift:46-54 | `undo()` of a handler that does not trap moves its rotation onto the redo stack under the original name. |
| TrackingProperties.RedoStep | Sources/withUndoTracking.swift:46-54 | `redo()` of a handler that does not trap moves its rotation onto the undo stack under the original name. |
| TrackingProperties.UndoThenRedo | Sources/withUndoTracking.swift:28-57 | A reversible top-level call, then undo, then redo. Each step's manager state and target state are given exactly: undo restores the target and the earlier undo stack; redo reapplies the action and restores the one-entry undo stack. |
| History.CallsPush | Sources/withUndoTracking.swift:28-57 | Top-level calls in normal mode take the target where the actions take it. They push one entry per call, each replaying the inverse its action registers, in order, above the untouched old stack. A call discards the redo stack. |
| History.CallTop | Sources/withUndoTracking.swift:46-56 | One top-level call whose action does not trap pushes one entry replaying its inverse, and leaves the redo stack empty. |
| History.ForwardCons | Sources/Methods.swift:18-175 | The actions of a list of components run first to last, each registering its inverse. |
| History.UndoTop | Tests/Essentials.swift:59 | One `undo()` of an entry whose replay does not trap pops it and pushes one entry on the redo stack, replaying the replay's own inverse. |
| History.RedoTop | Tests/Essentials.swift:64 | One `redo()` of an entry whose replay does not trap pops it and pushes one entry on the undo stack, replaying the replay's own inverse. |
| History.UndoAllSnoc | Sources/withUndoTracking.swift:46-54 | Undoing a list with one more, newest, inverse runs that inverse first. It traps if that inverse traps. |
| History.UndoAllPeel | Sources/withUndoTracking.swift:46-54 | Undoing the actions a nonempty stack replays runs its top entry's action first. |
| History.RotateFires | Sources/withUndoTracking.swift:46-54 | A handler fires without trapping exactly when the action it replays does not trap. It then leaves the target as that action does, and its next handler replays that action's inverse. |
| History.UndosRestore | Tests/Essentials.swift:59 | One `undo()` per entry on top of the undo stack pops those entries, newest first, leaving the stack below them. The target goes where undoing their actions takes it. The redo stack gains one entry per undo, replaying the redo actions, oldest on top. |
| History.RedosReplay | Tests/Essentials.swift:64 | One `redo()` per entry on top of the redo stack pops those entries and runs their actions forward. The undo stack gains one entry per redo, replaying the inverses those actions register, in order. |
| History.CallsThenUndos | Sources/withUndoTracking.swift:28-57 | n reversible top-level calls, then n `undo()`: the target and the undo stack are back where they started. The n redo entries replay actions whose forward run repeats the calls' run. |
| History.ManagerRoundTrip | Sources/withUndoTracking.swift:28-57 | n reversible top-level calls, n `undo()`, then n `redo()`. After the undos, the target and undo stack are as before the calls. After the redos, the target and redo stack are as after the calls, and the undo stack again holds n entries replaying the same inverses. |
| Essentials.IncrementStates | Tests/Essentials.swift:45-68 | The manager and model states after the named increment, the undo and the redo. |
| Essentials.IncrementTitles | Tests/Essentials.swift:57-67 | The titles "Undo Increment" and "Redo Increment" of a one-entry stack named "Increment". |
| Essentials.UndoRedoScenario | Tests/Essentials.swift:45-69 | After the call: can undo, cannot redo, "Undo Increment", counter 1. After undo: cannot undo, can redo, "Redo Increment", counter 0. After redo: as after the call. |

## Left out

- SwiftUI's `withAnimation(.default, ...)` is not modelled. The wrapper runs the mutation
  once, and the runner records the animation flag in its trace.
- Localization (`LocalizedStringResource`, `localized()`) is not modelled; action names
  are plain strings. Sources/Extensions.swift is not part of this model.
- Foundation's `UndoManager` is replaced by the stand-in described above. Grouping, levels
  of undo, run-loop grouping and its own title formatting are not modelled. The
  stand-in's rules are an assumption that only the test's expectations back.
- `@MainActor`, `nonisolated(unsafe)` and the `#if swift(>=6.2)` split are not modelled.
  Both branches (Sources/withUndoTracking.swift:28-57 and 59-88) have the same logic,
  and the model is one sequential runner.
- The `ReferenceWritableKeyPath` indirection is not modelled. The target has one array
  field, which every mutator uses, and one counter field for the test model.
  `replace(_:with:)` is modelled on the array field only, although the source accepts
  any key path.
- Identifiable ids: `remove(_:from:)` compares ids through a function from elements to
  ids.
- Array positions are unbounded integers; Swift's 64-bit `Int` width matters only for the
  counter, where overflow is modelled as a trap.
- A Swift trap ends the process. The model records the trap and the state reached, and
  the runner then registers nothing. An undo or redo whose handler traps leaves its
  entry popped.
- An inverse builder runs when its handler fires, but every mutator captures what it
  needs before mutating. So the model computes the inverse action when the forward
  action runs, and the result is the same.
- The handler's `target` argument, which the source ignores, is not modelled.
- Sources/UndoTracking.swift (an empty marker protocol) and Package.swift have no logic
  and are not part of this model.
- Tracking.Track: its own contract states only that the manager stays present or
  absent. The call protocol is stated by `RunnerCounts` and `RunnerOrder`.
- Mutators.Inserted: its contract states the length and the inserted element, not the
  whole result.
- Mutators.Removed: its contract states only the length. The round trips
  `RemoveUndoesInsert` and `InsertUndoesRemove` pin both functions down.
- Mutators.Filter: its contract does not state the order of the kept elements. Order is
  implied by `ReinsertRestores`, which rebuilds the original array from them.
