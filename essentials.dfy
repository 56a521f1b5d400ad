/**
 * The scenario of Tests/Essentials.swift: a model whose `increment()` registers
 * `decrement()` as its undo and vice versa, driven through one named call of the runner,
 * one undo and one redo.
 */
module Essentials {
  import opened Wrappers
  import opened Component
  import opened Mutators
  import opened Tracking
  import opened TrackingProperties

  /** What the test reads off the undo manager and the model at each step. */
  datatype Observation = Observation(canUndo: bool, canRedo: bool, undoTitle: string, redoTitle: string, index: int)

  /**
   * The states the test goes through, for the model's named increment: after the call,
   * one undo entry named "Increment" and the counter at 1; after the undo, that entry's
   * replay of `decrement()` on the redo stack under the same name and the counter at 0;
   * after the redo, the replay of `increment()` back on the undo stack and the counter
   * at 1.
   */
  lemma IncrementStates(model: Document<int>)
    ensures var c := Named(New(model, Increment), "Increment");
      var h := Reenter(c, InverseBuilder(model, Decrement));
      var h1 := Reenter(ReplacingAction(c, Decrement), InverseBuilder(model, Increment));
      var h2 := Reenter(ReplacingAction(ReplacingAction(c, Decrement), Increment), InverseBuilder(model, Decrement));
      var m1 := ManagerState([Registration(model, h, Some("Increment"))], [], Normal, None);
      var m2 := ManagerState([], [Registration(model, h1, Some("Increment"))], Normal, None);
      var m3 := ManagerState([Registration(model, h2, Some("Increment"))], [], Normal, None);
      && Track(Some(ManagerState([], [], Normal, None)), Doc([], 0), Returning(c)).manager == Some(m1)
      && Track(Some(ManagerState([], [], Normal, None)), Doc([], 0), Returning(c)).doc == Doc([], 1)
      && Undone(m1, Doc([], 1)) == (m2, Doc([], 0))
      && Redone(m2, Doc([], 0)) == (m3, Doc([], 1))
  {
    var c := Named(New(model, Increment), "Increment");
    var d: Doc<int> := Doc([], 0);
    UndoThenRedo(ManagerState([], [], Normal, None), d, c);
    CounterRoundTrip(d);
  }

  /** The menu titles of a stack whose one entry is named "Increment". */
  lemma IncrementTitles(stack: seq<Registration<int>>)
    requires |stack| == 1 && stack[0].name == Some("Increment")
    ensures MenuItemTitle("Undo", stack) == "Undo Increment"
    ensures MenuItemTitle("Redo", stack) == "Redo Increment"
  {
    assert "Undo" + " " + "Increment" == "Undo Increment";
    assert "Redo" + " " + "Increment" == "Redo Increment";
  }

  /**
   * `Essentials.undo()`: after the named call the increment can be undone under its name
   * and the counter is 1; after `undo()` there is nothing left to undo, the increment can
   * be redone under its name and the counter is back at 0; after `redo()` the state reads
   * as after the first call.
   */
  method UndoRedoScenario() returns (afterCall: Observation, afterUndo: Observation, afterRedo: Observation)
    ensures afterCall == Observation(true, false, "Undo Increment", "Redo", 1)
    ensures afterUndo == Observation(false, true, "Undo", "Redo Increment", 0)
    ensures afterRedo == Observation(true, false, "Undo Increment", "Redo", 1)
  {
    var manager := new UndoManager<int>();
    var model := new Document<int>([], 0);
    var c := Named(New(model, Increment), "Increment");
    IncrementStates(model);

    var trace := WithUndoTracking(manager, Returning(c));
    IncrementTitles(manager.undoStack);
    afterCall := Observation(manager.CanUndo(), manager.CanRedo(), manager.UndoMenuItemTitle(), manager.RedoMenuItemTitle(), model.index);

    manager.Undo();
    IncrementTitles(manager.redoStack);
    afterUndo := Observation(manager.CanUndo(), manager.CanRedo(), manager.UndoMenuItemTitle(), manager.RedoMenuItemTitle(), model.index);

    manager.Redo();
    IncrementTitles(manager.undoStack);
    afterRedo := Observation(manager.CanUndo(), manager.CanRedo(), manager.UndoMenuItemTitle(), manager.RedoMenuItemTitle(), model.index);
  }
}
