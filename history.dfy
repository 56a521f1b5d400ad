/**
 * A whole history through the undo manager: n top-level calls of the runner on one
 * target, then n `undo()`, then n `redo()`. The pending action of each stack entry (the
 * inverse its handler replays) ties the manager's stacks to the action lists of
 * `Mutators.HistoryRoundTrip`.
 */
module History {
  import opened Wrappers
  import opened Component
  import opened Mutators
  import opened Tracking
  import opened TrackingProperties

  /** The actions of a list of components, in order. */
  function Actions<E>(cs: seq<Comp<E>>): (ops: seq<Op<E>>)
    ensures |ops| == |cs|
    decreases |cs|
  {
    if cs == [] then [] else [cs[0].action] + Actions(cs[1..])
  }

  /** The action each entry of a stack replays when it fires, bottom first. */
  function Pending<E>(stack: seq<Registration<E>>): (ops: seq<Op<E>>)
    ensures |ops| == |stack|
    decreases |stack|
  {
    if stack == [] then [] else [stack[0].handler.builder.inverse] + Pending(stack[1..])
  }

  function Reversed<T>(s: seq<T>): (r: seq<T>)
    ensures |r| == |s|
    decreases |s|
  {
    if s == [] then [] else Reversed(s[1..]) + [s[0]]
  }

  /** The top-level calls `withUndoTracking(manager) { c }`, one per component, in order. */
  function Calls<E>(m: ManagerState<E>, d: Doc<E>, cs: seq<Comp<E>>): (ManagerState<E>, Doc<E>)
    decreases |cs|
  {
    if cs == [] then (m, d)
    else
      var t := Track(Some(m), d, Returning(cs[0]));
      Calls(t.manager.value, t.doc, cs[1..])
  }

  /** `undo()` n times; an undo with nothing to undo does nothing. */
  function Undos<E>(m: ManagerState<E>, d: Doc<E>, n: nat): (ManagerState<E>, Doc<E>)
    decreases n
  {
    if n == 0 || m.undoStack == [] then (m, d)
    else
      var r := Undone(m, d);
      Undos(r.0, r.1, n - 1)
  }

  /** `redo()` n times; a redo with nothing to redo does nothing. */
  function Redos<E>(m: ManagerState<E>, d: Doc<E>, n: nat): (ManagerState<E>, Doc<E>)
    decreases n
  {
    if n == 0 || m.redoStack == [] then (m, d)
    else
      var r := Redone(m, d);
      Redos(r.0, r.1, n - 1)
  }

  lemma {:induction false} PendingConcat<E>(a: seq<Registration<E>>, b: seq<Registration<E>>)
    ensures Pending(a + b) == Pending(a) + Pending(b)
    decreases |a|
  {
    if a == [] {
      assert a + b == b;
    } else {
      assert (a + b)[1..] == a[1..] + b;
      PendingConcat(a[1..], b);
    }
  }

  lemma PendingOne<E>(e: Registration<E>)
    ensures Pending([e]) == [e.handler.builder.inverse]
  {
    assert [e][1..] == [];
  }

  lemma {:induction false} ReversedSnoc<T>(s: seq<T>, x: T)
    ensures Reversed(s + [x]) == [x] + Reversed(s)
    decreases |s|
  {
    if s == [] {
      assert [x][1..] == [];
    } else {
      assert (s + [x])[1..] == s[1..] + [x];
      ReversedSnoc(s[1..], x);
    }
  }

  /** A sequence that starts with `p` is `p` followed by the rest. */
  lemma PrefixSplit<T>(s: seq<T>, p: seq<T>)
    requires |p| <= |s| && s[..|p|] == p
    ensures s == p + s[|p|..]
  {
    assert s == s[..|p|] + s[|p|..];
  }

  /** Undoing a list with one more, newest, inverse: that inverse runs first. */
  lemma {:induction false} UndoAllSnoc<E>(a: seq<Op<E>>, x: Op<E>, d: Doc<E>)
    ensures Apply(x, d).Trap? ==> UndoAll(a + [x], d).None?
    ensures Apply(x, d).Done? ==>
      var o := Apply(x, d);
      && (UndoAll(a + [x], d).Some? <==> UndoAll(a, o.after).Some?)
      && (UndoAll(a, o.after).Some? ==>
            UndoAll(a + [x], d).value
              == Trail(UndoAll(a, o.after).value.doc, UndoAll(a, o.after).value.registered + [o.inverse]))
    decreases |a|
  {
    if a == [] {
      assert [x][1..] == [];
    } else {
      assert (a + [x])[1..] == a[1..] + [x];
      UndoAllSnoc(a[1..], x, d);
      if Apply(x, d).Done? && UndoAll(a, Apply(x, d).after).Some? {
        var o := Apply(x, d);
        var t := UndoAll(a[1..], o.after).value;
        var redo := Apply(a[0], t.doc).inverse;
        assert [redo] + (t.registered + [o.inverse]) == ([redo] + t.registered) + [o.inverse];
      }
    }
  }

  /** Firing a handler runs the action it replays; the handler it registers replays that action's inverse. */
  lemma RotateFires<E>(h: Handler<E>, d: Doc<E>)
    ensures Rotate(h, d).Some? <==> Apply(h.builder.inverse, d).Done?
    ensures Rotate(h, d).Some? ==>
      && Rotate(h, d).value.1 == Apply(h.builder.inverse, d).after
      && Rotate(h, d).value.0.builder.inverse == Apply(h.builder.inverse, d).inverse
  {
  }

  /** A top-level call in normal mode whose action does not trap pushes one entry replaying its inverse. */
  lemma CallTop<E>(m: ManagerState<E>, d: Doc<E>, c: Comp<E>)
    requires m.mode == Normal
    requires Apply(c.action, d).Done?
    ensures var t := Track(Some(m), d, Returning(c));
      var o := Apply(c.action, d);
      && t.doc == o.after
      && t.manager.Some?
      && t.manager.value.mode == Normal
      && t.manager.value.redoStack == []
      && |t.manager.value.undoStack| == |m.undoStack| + 1
      && t.manager.value.undoStack[..|m.undoStack|] == m.undoStack
      && t.manager.value.undoStack[|m.undoStack|].handler.builder.inverse == o.inverse
  {
    ForwardStep(m, d, c);
  }

  /** Running the actions of a nonempty list of components runs the first, then the rest. */
  lemma ForwardCons<E>(cs: seq<Comp<E>>, d: Doc<E>)
    requires cs != [] && Forward(Actions(cs), d).Some?
    ensures var o := Apply(cs[0].action, d);
      && o.Done?
      && Forward(Actions(cs[1..]), o.after).Some?
      && Forward(Actions(cs), d).value
         == Trail(Forward(Actions(cs[1..]), o.after).value.doc,
                  [o.inverse] + Forward(Actions(cs[1..]), o.after).value.registered)
  {
    assert Actions(cs)[0] == cs[0].action;
    assert Actions(cs)[1..] == Actions(cs[1..]);
  }

  /**
   * Top-level calls in normal mode: the target goes where the actions take it, and one
   * entry per call is pushed on the undo stack, replaying the inverses the actions
   * register, in order. A call discards the redo stack.
   */
  lemma {:induction false} CallsPush<E>(m: ManagerState<E>, d: Doc<E>, cs: seq<Comp<E>>)
    requires m.mode == Normal
    requires Forward(Actions(cs), d).Some?
    ensures var r := Calls(m, d, cs);
      var tr := Forward(Actions(cs), d).value;
      && r.1 == tr.doc
      && r.0.mode == Normal
      && |r.0.undoStack| == |m.undoStack| + |cs|
      && r.0.undoStack[..|m.undoStack|] == m.undoStack
      && Pending(r.0.undoStack[|m.undoStack|..]) == tr.registered
      && r.0.redoStack == (if cs == [] then m.redoStack else [])
    decreases |cs|
  {
    if cs == [] {
      assert m.undoStack[|m.undoStack|..] == [];
    } else {
      ForwardCons(cs, d);
      var o := Apply(cs[0].action, d);
      CallTop(m, d, cs[0]);
      var m1 := Track(Some(m), d, Returning(cs[0])).manager.value;
      CallsPush(m1, o.after, cs[1..]);
      var r := Calls(m1, o.after, cs[1..]);
      StackGrow(m.undoStack, m1.undoStack, r.0.undoStack);
    }
  }

  /** The newest entry of a nonempty stack replays the last pending action. */
  lemma PendingSnoc<E>(s: seq<Registration<E>>)
    requires s != []
    ensures Pending(s) == Pending(s[..|s| - 1]) + [s[|s| - 1].handler.builder.inverse]
  {
    var n := |s| - 1;
    assert s == s[..n] + [s[n]];
    PendingConcat(s[..n], [s[n]]);
    PendingOne(s[n]);
  }

  /**
   * A stack grown by one entry and then by more: the first growth is the head of the
   * entries added on top of the original stack.
   */
  lemma StackGrow<E>(s0: seq<Registration<E>>, s1: seq<Registration<E>>, s2: seq<Registration<E>>)
    requires |s1| == |s0| + 1 && s1[..|s0|] == s0
    requires |s2| >= |s1| && s2[..|s1|] == s1
    ensures s2[..|s0|] == s0
    ensures Pending(s2[|s0|..]) == [s1[|s0|].handler.builder.inverse] + Pending(s2[|s1|..])
  {
    assert s2[|s0|] == s1[|s0|];
    assert s2[|s0|..][1..] == s2[|s1|..];
  }

  /** One `undo()` of the newest entry of `base + entries`, when its replay does not trap. */
  lemma UndoTop<E>(m: ManagerState<E>, d: Doc<E>, base: seq<Registration<E>>, entries: seq<Registration<E>>)
    requires m.mode == Normal && m.undoStack == base + entries && entries != []
    requires Apply(entries[|entries| - 1].handler.builder.inverse, d).Done?
    ensures var r := Undone(m, d);
      var o := Apply(entries[|entries| - 1].handler.builder.inverse, d);
      && r.1 == o.after
      && r.0.mode == Normal
      && r.0.undoStack == base + entries[..|entries| - 1]
      && |r.0.redoStack| == |m.redoStack| + 1
      && r.0.redoStack[..|m.redoStack|] == m.redoStack
      && r.0.redoStack[|m.redoStack|].handler.builder.inverse == o.inverse
  {
    var e := entries[|entries| - 1];
    RotateFires(e.handler, d);
    assert Last(m.undoStack) == e;
    UndoStep(m, d);
    assert m.undoStack[..|m.undoStack| - 1] == base + entries[..|entries| - 1];
  }

  /** One `redo()` of the newest entry of `rbase + rentries`, when its replay does not trap. */
  lemma RedoTop<E>(m: ManagerState<E>, d: Doc<E>, rbase: seq<Registration<E>>, rentries: seq<Registration<E>>)
    requires m.mode == Normal && m.redoStack == rbase + rentries && rentries != []
    requires Apply(rentries[|rentries| - 1].handler.builder.inverse, d).Done?
    ensures var r := Redone(m, d);
      var o := Apply(rentries[|rentries| - 1].handler.builder.inverse, d);
      && r.1 == o.after
      && r.0.mode == Normal
      && r.0.redoStack == rbase + rentries[..|rentries| - 1]
      && |r.0.undoStack| == |m.undoStack| + 1
      && r.0.undoStack[..|m.undoStack|] == m.undoStack
      && r.0.undoStack[|m.undoStack|].handler.builder.inverse == o.inverse
  {
    var e := rentries[|rentries| - 1];
    RotateFires(e.handler, d);
    assert Last(m.redoStack) == e;
    RedoStep(m, d);
    assert m.redoStack[..|m.redoStack| - 1] == rbase + rentries[..|rentries| - 1];
  }

  /** Undoing the pending actions of a nonempty stack runs the newest one first. */
  lemma UndoAllPeel<E>(entries: seq<Registration<E>>, d: Doc<E>)
    requires entries != [] && UndoAll(Pending(entries), d).Some?
    ensures var n := |entries| - 1;
      var o := Apply(entries[n].handler.builder.inverse, d);
      && o.Done?
      && UndoAll(Pending(entries[..n]), o.after).Some?
      && UndoAll(Pending(entries), d).value.doc == UndoAll(Pending(entries[..n]), o.after).value.doc
      && Reversed(UndoAll(Pending(entries), d).value.registered)
         == [o.inverse] + Reversed(UndoAll(Pending(entries[..n]), o.after).value.registered)
  {
    var n := |entries| - 1;
    var x := entries[n].handler.builder.inverse;
    PendingSnoc(entries);
    UndoAllSnoc(Pending(entries[..n]), x, d);
    var o := Apply(x, d);
    ReversedSnoc(UndoAll(Pending(entries[..n]), o.after).value.registered, o.inverse);
  }

  /**
   * `undo()` once per top entry: the entries leave the undo stack newest first, the
   * target goes where `UndoAll` takes it, and one entry per undo lands on the redo stack,
   * replaying the redo actions, the oldest on top.
   */
  lemma {:induction false} UndosRestore<E>(m: ManagerState<E>, d: Doc<E>, base: seq<Registration<E>>, entries: seq<Registration<E>>)
    requires m.mode == Normal && m.undoStack == base + entries
    requires UndoAll(Pending(entries), d).Some?
    ensures var r := Undos(m, d, |entries|);
      var tr := UndoAll(Pending(entries), d).value;
      && r.1 == tr.doc
      && r.0.mode == Normal
      && r.0.undoStack == base
      && |r.0.redoStack| == |m.redoStack| + |entries|
      && r.0.redoStack[..|m.redoStack|] == m.redoStack
      && Pending(r.0.redoStack[|m.redoStack|..]) == Reversed(tr.registered)
    decreases |entries|
  {
    if entries == [] {
      assert base + entries == base;
      assert m.redoStack[|m.redoStack|..] == [];
    } else {
      var n := |entries| - 1;
      UndoAllPeel(entries, d);
      var o := Apply(entries[n].handler.builder.inverse, d);
      UndoTop(m, d, base, entries);
      var m1 := Undone(m, d).0;
      UndosRestore(m1, o.after, base, entries[..n]);
      var r := Undos(m1, o.after, n);
      assert Undos(m, d, |entries|) == r;
      StackGrow(m.redoStack, m1.redoStack, r.0.redoStack);
    }
  }

  /** The top of a redo stack replays the first of the redo actions, and the rest the rest. */
  lemma PeelRedo<E>(rentries: seq<Registration<E>>, rs: seq<Op<E>>)
    requires rentries != [] && Pending(rentries) == Reversed(rs)
    ensures rs != []
    ensures Pending(rentries[..|rentries| - 1]) == Reversed(rs[1..])
    ensures rentries[|rentries| - 1].handler.builder.inverse == rs[0]
  {
    var n := |rentries| - 1;
    PendingSnoc(rentries);
    var p := Pending(rentries);
    assert p == Reversed(rs[1..]) + [rs[0]];
    assert p[..n] == Reversed(rs[1..]);
  }

  /**
   * `redo()` once per top entry of the redo stack: the target goes where the redo
   * actions take it, and one entry per redo is pushed back on the undo stack, replaying
   * the inverses the redo actions register, in order.
   */
  lemma {:induction false} RedosReplay<E>(m: ManagerState<E>, d: Doc<E>, rbase: seq<Registration<E>>, rentries: seq<Registration<E>>, rs: seq<Op<E>>)
    requires m.mode == Normal && m.redoStack == rbase + rentries
    requires Pending(rentries) == Reversed(rs)
    requires Forward(rs, d).Some?
    ensures var r := Redos(m, d, |rentries|);
      var tr := Forward(rs, d).value;
      && r.1 == tr.doc
      && r.0.mode == Normal
      && r.0.redoStack == rbase
      && |r.0.undoStack| == |m.undoStack| + |rentries|
      && r.0.undoStack[..|m.undoStack|] == m.undoStack
      && Pending(r.0.undoStack[|m.undoStack|..]) == tr.registered
    decreases |rentries|
  {
    if rentries == [] {
      assert rbase + rentries == rbase;
      assert m.undoStack[|m.undoStack|..] == [];
    } else {
      var n := |rentries| - 1;
      PeelRedo(rentries, rs);
      var o := Apply(rs[0], d);
      RedoTop(m, d, rbase, rentries);
      var m1 := Redone(m, d).0;
      RedosReplay(m1, o.after, rbase, rentries[..n], rs[1..]);
      var r := Redos(m1, o.after, n);
      assert Redos(m, d, |rentries|) == r;
      StackGrow(m.undoStack, m1.undoStack, r.0.undoStack);
    }
  }

  /**
   * n top-level calls of reversible actions, then n `undo()`: the target is back where it
   * started and the undo stack back to what it was; the n entries on the redo stack
   * replay the redo actions, whose forward run repeats the calls' run.
   */
  lemma CallsThenUndos<E>(m: ManagerState<E>, d: Doc<E>, cs: seq<Comp<E>>)
    requires m.mode == Normal
    requires AllReversible(Actions(cs), d)
    ensures Forward(Actions(cs), d).Some?
    ensures var tr := Forward(Actions(cs), d).value;
      var f := Calls(m, d, cs);
      var b := Undos(f.0, f.1, |cs|);
      && UndoAll(tr.registered, tr.doc).Some?
      && Forward(UndoAll(tr.registered, tr.doc).value.registered, d) == Some(tr)
      && f.1 == tr.doc
      && f.0.mode == Normal
      && |f.0.undoStack| == |m.undoStack| + |cs| && f.0.undoStack[..|m.undoStack|] == m.undoStack
      && Pending(f.0.undoStack[|m.undoStack|..]) == tr.registered
      && b.1 == d
      && b.0.mode == Normal
      && b.0.undoStack == m.undoStack
      && |b.0.redoStack| == |f.0.redoStack| + |cs| && b.0.redoStack[..|f.0.redoStack|] == f.0.redoStack
      && Pending(b.0.redoStack[|f.0.redoStack|..]) == Reversed(UndoAll(tr.registered, tr.doc).value.registered)
  {
    HistoryRoundTrip(Actions(cs), d);
    CallsPush(m, d, cs);
    var f := Calls(m, d, cs);
    PrefixSplit(f.0.undoStack, m.undoStack);
    UndosRestore(f.0, f.1, m.undoStack, f.0.undoStack[|m.undoStack|..]);
  }

  /**
   * The round trip through the undo manager. After n top-level calls of reversible
   * actions on one target, starting in normal mode, n `undo()` bring the target back to
   * where it started and the undo stack back to what it was, with n entries on the redo
   * stack. n `redo()` then bring the target back to the state after the calls, the redo
   * stack back to what the calls left, and n entries back on the undo stack replaying
   * the same inverses as after the calls.
   */
  lemma ManagerRoundTrip<E>(m: ManagerState<E>, d: Doc<E>, cs: seq<Comp<E>>)
    requires m.mode == Normal
    requires AllReversible(Actions(cs), d)
    ensures var f := Calls(m, d, cs);
      var b := Undos(f.0, f.1, |cs|);
      var g := Redos(b.0, b.1, |cs|);
      && Forward(Actions(cs), d).Some?
      && f.1 == Forward(Actions(cs), d).value.doc
      && |f.0.undoStack| == |m.undoStack| + |cs| && f.0.undoStack[..|m.undoStack|] == m.undoStack
      && b.1 == d
      && b.0.undoStack == m.undoStack
      && |b.0.redoStack| == |f.0.redoStack| + |cs|
      && g.1 == f.1
      && g.0.redoStack == f.0.redoStack
      && |g.0.undoStack| == |f.0.undoStack| && g.0.undoStack[..|m.undoStack|] == m.undoStack
      && Pending(g.0.undoStack[|m.undoStack|..]) == Pending(f.0.undoStack[|m.undoStack|..])
      && g.0.mode == Normal
  {
    CallsThenUndos(m, d, cs);
    var tr := Forward(Actions(cs), d).value;
    var u := UndoAll(tr.registered, tr.doc).value;
    var f := Calls(m, d, cs);
    var b := Undos(f.0, f.1, |cs|);
    PrefixSplit(b.0.redoStack, f.0.redoStack);
    RedosReplay(b.0, b.1, f.0.redoStack, b.0.redoStack[|f.0.redoStack|..], u.registered);
  }
}
