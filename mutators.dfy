/**
 * The undoable mutators of Sources/Methods.swift, and the counter of the test model in
 * Tests/Essentials.swift.
 *
 * Each Swift mutator is a closure that mutates the target's array, then registers a
 * closure building its inverse. Here each closure is defunctionalised into a constructor
 * of `Op`; `Apply` says what an action does to the target's state and which inverse
 * action it registers, computed from the state before the mutation. `Document.Perform`
 * carries the action out in place, step by step as the source does.
 *
 * Swift runtime traps (an index out of bounds, `Int` overflow) stop the process; the
 * model records them as the outcome `Trap`, with the state reached when the trap fired.
 */
module Mutators {
  import opened Wrappers

  /** Bounds of Swift's 64-bit `Int`. */
  const IntMax: int := 0x7FFF_FFFF_FFFF_FFFF
  const IntMin: int := -0x8000_0000_0000_0000

  /**
   * The state of a target object: the array the key path leads to, and the `index`
   * counter of the test's `Model`.
   */
  datatype Doc<E> = Doc(items: seq<E>, index: int)

  /** One undoable action. */
  datatype Op<!E> =
    | Append(element: E)                                               // append(_:to:)
    | AppendContents(elements: seq<E>)                                 // append(contentsOf:to:)
    | Insert(element: E, position: int)                                // insert(_:at:to:)
    | RemoveAll(shouldBeRemoved: E -> bool)                            // removeAll(from:where:)
    | InsertBack(inserts: seq<(int, E)>, shouldBeRemoved: E -> bool)   // the private insert(inserts:keyPath:where:)
    | RemoveAt(position: int)                                          // remove(at:from:)
    | RemoveLast(k: int)                                               // removeLast(_:from:)
    | Replace(newValue: seq<E>)                                        // replace(_:with:)
    | Increment                                                        // Model.increment()
    | Decrement                                                        // Model.decrement()

  /** What running an action does: the new state and the registered inverse, or a trap. */
  datatype Outcome<!E> = Done(after: Doc<E>, inverse: Op<E>) | Trap(stopped: Doc<E>)
  {
    /** The state of the target once the action has finished or trapped. */
    function State(): Doc<E>
    {
      if Done? then after else stopped
    }
  }

  /** `remove(_:from:)`: removes every element whose id equals that of `element`. */
  function RemoveById<E, K(==)>(element: E, id: E -> K): (op: Op<E>)
    ensures op.RemoveAll?
    ensures op.shouldBeRemoved(element)
  {
    RemoveAll(x => id(x) == id(element))
  }

  /** The predicate of `remove(_:from:)` selects exactly the elements sharing the id. */
  lemma RemoveByIdSelects<E, K>(element: E, id: E -> K, x: E)
    ensures RemoveById(element, id).shouldBeRemoved(x) <==> id(x) == id(element)
  {
  }

  // ---------------------------------------------------------------------------
  // Array primitives the mutators are built from (Swift's own Array operations)
  // ---------------------------------------------------------------------------

  /** `Array.insert(_:at:)` for a valid position. */
  function Inserted<E>(s: seq<E>, i: int, x: E): (r: seq<E>)
    requires 0 <= i <= |s|
    ensures |r| == |s| + 1 && r[i] == x
  {
    s[..i] + [x] + s[i..]
  }

  /** `Array.remove(at:)` for a valid position. */
  function Removed<E>(s: seq<E>, i: int): (r: seq<E>)
    requires 0 <= i < |s|
    ensures |r| == |s| - 1
  {
    s[..i] + s[i + 1..]
  }

  /** The (offset, element) pairs of the elements that satisfy `p`, in ascending order. */
  function Matches<E>(s: seq<E>, p: E -> bool): (r: seq<(int, E)>)
    ensures forall k :: 0 <= k < |r| ==> 0 <= r[k].0 < |s| && s[r[k].0] == r[k].1 && p(r[k].1)
    ensures forall k, l :: 0 <= k < l < |r| ==> r[k].0 < r[l].0
    ensures forall i :: 0 <= i < |s| && p(s[i]) ==> (i, s[i]) in r
    decreases |s|
  {
    if s == [] then []
    else
      var n := |s| - 1;
      Matches(s[..n], p) + (if p(s[n]) then [(n, s[n])] else [])
  }

  /** `Array.removeAll(where:)`: the elements that do not satisfy `p`, in their order. */
  function Filter<E>(s: seq<E>, p: E -> bool): (r: seq<E>)
    ensures forall k :: 0 <= k < |r| ==> !p(r[k])
    ensures |r| + |Matches(s, p)| == |s|
    decreases |s|
  {
    if s == [] then []
    else
      var n := |s| - 1;
      Filter(s[..n], p) + (if p(s[n]) then [] else [s[n]])
  }

  /** The state reached by inserting pairs one by one, and whether an insertion trapped. */
  datatype Insertion<E> = Insertion(items: seq<E>, trapped: bool)

  /** Inserts each pair's element at its offset, in order, stopping at the first bad offset. */
  function InsertEach<E>(s: seq<E>, inserts: seq<(int, E)>): (r: Insertion<E>)
    ensures !r.trapped ==> |r.items| == |s| + |inserts|
    decreases |inserts|
  {
    if inserts == [] then Insertion(s, false)
    else if 0 <= inserts[0].0 <= |s| then InsertEach(Inserted(s, inserts[0].0, inserts[0].1), inserts[1..])
    else Insertion(s, true)
  }

  /**
   * The re-insertion loop traps exactly when some pair's offset is out of bounds for the
   * array it meets: before the j-th insertion the array has grown by j elements.
   */
  lemma {:induction false} InsertEachTraps<E>(s: seq<E>, inserts: seq<(int, E)>)
    ensures InsertEach(s, inserts).trapped
            <==> exists j :: 0 <= j < |inserts| && !(0 <= inserts[j].0 <= |s| + j)
    decreases |inserts|
  {
    if inserts != [] && 0 <= inserts[0].0 <= |s| {
      var rest := inserts[1..];
      var t := Inserted(s, inserts[0].0, inserts[0].1);
      InsertEachTraps(t, rest);
      if exists j :: 0 <= j < |inserts| && !(0 <= inserts[j].0 <= |s| + j) {
        var j :| 0 <= j < |inserts| && !(0 <= inserts[j].0 <= |s| + j);
        assert rest[j - 1] == inserts[j];
      }
      if exists j :: 0 <= j < |rest| && !(0 <= rest[j].0 <= |t| + j) {
        var j :| 0 <= j < |rest| && !(0 <= rest[j].0 <= |t| + j);
        assert inserts[j + 1] == rest[j];
      }
    }
  }

  // ---------------------------------------------------------------------------
  // The actions
  // ---------------------------------------------------------------------------

  /**
   * Runs one action on a state: the new state and the inverse the action registers, or
   * the trap it hits. Array actions leave the counter alone and counter actions leave
   * the array alone.
   */
  function Apply<E>(op: Op<E>, d: Doc<E>): (o: Outcome<E>)
    ensures !(op.Increment? || op.Decrement?) ==> o.State().index == d.index
    ensures op.Increment? || op.Decrement? ==> o.State().items == d.items
    ensures o.Trap? ==> op.Insert? || op.InsertBack? || op.RemoveAt? || op.RemoveLast? || op.Increment? || op.Decrement?
  {
    var s := d.items;
    match op
    case Append(e) => Done(d.(items := s + [e]), RemoveAt(|s|))
    case AppendContents(t) => Done(d.(items := s + t), RemoveAt(|s|))
    case Insert(e, i) =>
      if 0 <= i <= |s| then Done(d.(items := Inserted(s, i, e)), RemoveAt(i)) else Trap(d)
    case RemoveAll(p) => Done(d.(items := Filter(s, p)), InsertBack(Matches(s, p), p))
    case InsertBack(inserts, p) =>
      var r := InsertEach(s, inserts);
      if r.trapped then Trap(d.(items := r.items)) else Done(d.(items := r.items), RemoveAll(p))
    case RemoveAt(i) =>
      if 0 <= i < |s| then Done(d.(items := Removed(s, i)), Insert(s[i], i)) else Trap(d)
    case RemoveLast(k) =>
      // the captured slice `count - 1 - k ..< count` needs k + 1 <= count; removeLast needs k >= 0
      if 0 <= k < |s| then Done(d.(items := s[..|s| - k]), AppendContents(s[|s| - 1 - k..])) else Trap(d)
    case Replace(v) => Done(d.(items := v), Replace(s))
    case Increment =>
      if d.index < IntMax then Done(d.(index := d.index + 1), Decrement) else Trap(d)
    case Decrement =>
      if d.index > IntMin then Done(d.(index := d.index - 1), Increment) else Trap(d)
  }

  // ---------------------------------------------------------------------------
  // The target object, mutated in place
  // ---------------------------------------------------------------------------

  /** An object conforming to `UndoTracking`: one array reached by the key path, one counter. */
  class Document<E> {
    var items: seq<E>
    var index: int

    constructor (items: seq<E>, index: int)
      ensures this.items == items && this.index == index
    {
      this.items := items;
      this.index := index;
    }

    /** The abstract value of the object. */
    function Value(): Doc<E>
      reads this
    {
      Doc(items, index)
    }

    /** The `enumerated()` loop of `removeAll(from:where:)`: collects the pairs to remove. */
    method CollectMatches(p: E -> bool) returns (removed: seq<(int, E)>)
      ensures removed == Matches(items, p)
    {
      removed := [];
      var j := 0;
      while j < |items|
        invariant 0 <= j <= |items|
        invariant removed == Matches(items[..j], p)
      {
        assert items[..j + 1][..j] == items[..j];
        if p(items[j]) {
          removed := removed + [(j, items[j])];
        }
        j := j + 1;
      }
      assert items[..|items|] == items;
    }

    /** The loop of the private `insert(inserts:keyPath:where:)`: re-inserts pairs one by one. */
    method InsertPairs(inserts: seq<(int, E)>) returns (trapped: bool)
      modifies this
      ensures InsertEach(old(items), inserts) == Insertion(items, trapped)
      ensures index == old(index)
    {
      trapped := false;
      var j := 0;
      while j < |inserts|
        invariant 0 <= j <= |inserts|
        invariant index == old(index)
        invariant InsertEach(items, inserts[j..]) == InsertEach(old(items), inserts)
      {
        var (i, x) := inserts[j];
        if !(0 <= i <= |items|) {
          trapped := true;
          return;
        }
        assert inserts[j..][1..] == inserts[j + 1..];
        items := Inserted(items, i, x);
        j := j + 1;
      }
    }

    /**
     * Runs one action's closure on this object: the mutation (inside the animation
     * wrapper in the source), then the inverse it hands to `registerUndo`.
     */
    method Perform(op: Op<E>) returns (inverse: Op<E>, trapped: bool)
      modifies this
      ensures Apply(op, old(Value())) == if trapped then Trap(Value()) else Done(Value(), inverse)
    {
      trapped := false;
      inverse := op;
      match op
      case Append(e) =>
        var at := |items|;
        items := items + [e];
        inverse := RemoveAt(at);
      case AppendContents(t) =>
        var at := |items|;
        items := items + t;
        inverse := RemoveAt(at);
      case Insert(e, i) =>
        if 0 <= i <= |items| {
          items := Inserted(items, i, e);
          inverse := RemoveAt(i);
        } else {
          trapped := true;
        }
      case RemoveAll(p) =>
        var removed := CollectMatches(p);
        items := Filter(items, p);
        inverse := InsertBack(removed, p);
      case InsertBack(inserts, p) =>
        trapped := InsertPairs(inserts);
        inverse := RemoveAll(p);
      case RemoveAt(i) =>
        if 0 <= i < |items| {
          var removed := items[i];
          items := Removed(items, i);
          inverse := Insert(removed, i);
        } else {
          trapped := true;
        }
      case RemoveLast(k) =>
        if 0 <= k < |items| {
          var removed := items[|items| - 1 - k..];
          items := items[..|items| - k];
          inverse := AppendContents(removed);
        } else {
          trapped := true;
        }
      case Replace(v) =>
        var removed := items;
        items := v;
        inverse := Replace(removed);
      case Increment =>
        if index < IntMax {
          index := index + 1;
          inverse := Decrement;
        } else {
          trapped := true;
        }
      case Decrement =>
        if index > IntMin {
          index := index - 1;
          inverse := Increment;
        } else {
          trapped := true;
        }
    }
  }

  // ---------------------------------------------------------------------------
  // Inverses: which actions are undone by the inverse they register
  // ---------------------------------------------------------------------------

  /** `remove(at:)` undoes `insert(_:at:)` at the same position. */
  lemma {:induction false} RemoveUndoesInsert<E>(s: seq<E>, i: int, x: E)
    requires 0 <= i <= |s|
    ensures Removed(Inserted(s, i, x), i) == s
  {
    var r := Removed(Inserted(s, i, x), i);
    assert forall k :: 0 <= k < |s| ==> r[k] == s[k];
  }

  /** `insert(_:at:)` of the removed element undoes `remove(at:)`. */
  lemma {:induction false} InsertUndoesRemove<E>(s: seq<E>, i: int)
    requires 0 <= i < |s|
    ensures Inserted(Removed(s, i), i, s[i]) == s
  {
    var r := Inserted(Removed(s, i), i, s[i]);
    assert forall k :: 0 <= k < |s| ==> r[k] == s[k];
  }

  /** Inserting at the end offset is appending. */
  lemma InsertedAtEnd<E>(s: seq<E>, x: E)
    ensures Inserted(s, |s|, x) == s + [x]
  {
  }

  /** Elements appended after the array do not disturb insertions at offsets inside it. */
  lemma {:induction false} InsertEachAppend<E>(a: seq<E>, w: seq<E>, inserts: seq<(int, E)>)
    requires !InsertEach(a, inserts).trapped
    ensures InsertEach(a + w, inserts) == Insertion(InsertEach(a, inserts).items + w, false)
    decreases |inserts|
  {
    if inserts != [] {
      var (i, x) := inserts[0];
      assert Inserted(a + w, i, x) == Inserted(a, i, x) + w;
      InsertEachAppend(Inserted(a, i, x), w, inserts[1..]);
    }
  }

  /** Inserting two lists of pairs in turn is inserting their concatenation. */
  lemma {:induction false} InsertEachConcat<E>(s: seq<E>, first: seq<(int, E)>, second: seq<(int, E)>)
    requires !InsertEach(s, first).trapped
    ensures InsertEach(s, first + second) == InsertEach(InsertEach(s, first).items, second)
    decreases |first|
  {
    if first == [] {
      assert first + second == second;
    } else {
      assert (first + second)[0] == first[0];
      assert (first + second)[1..] == first[1..] + second;
      InsertEachConcat(Inserted(s, first[0].0, first[0].1), first[1..], second);
    }
  }

  /** A non-empty sequence is its front followed by its last element. */
  lemma SplitLast<E>(s: seq<E>)
    requires s != []
    ensures s == s[..|s| - 1] + [s[|s| - 1]]
  {
  }

  /** Filtering and matching an array with one more, selected, element at the end. */
  lemma SnocRemoved<E>(t: seq<E>, x: E, p: E -> bool)
    requires p(x)
    ensures Filter(t + [x], p) == Filter(t, p)
    ensures Matches(t + [x], p) == Matches(t, p) + [(|t|, x)]
  {
    assert (t + [x])[..|t|] == t;
    assert Filter(t, p) + [] == Filter(t, p);
  }

  /** Filtering and matching an array with one more, kept, element at the end. */
  lemma SnocKept<E>(t: seq<E>, x: E, p: E -> bool)
    requires !p(x)
    ensures Filter(t + [x], p) == Filter(t, p) + [x]
    ensures Matches(t + [x], p) == Matches(t, p)
  {
    assert (t + [x])[..|t|] == t;
    assert Matches(t, p) + [] == Matches(t, p);
  }

  /** One step of `ReinsertRestores`: a last element that was removed is re-inserted last. */
  lemma ReinsertRemovedLast<E>(t: seq<E>, x: E, p: E -> bool)
    requires p(x)
    requires InsertEach(Filter(t, p), Matches(t, p)) == Insertion(t, false)
    ensures InsertEach(Filter(t + [x], p), Matches(t + [x], p)) == Insertion(t + [x], false)
  {
    SnocRemoved(t, x, p);
    InsertEachConcat(Filter(t, p), Matches(t, p), [(|t|, x)]);
    InsertEachOne(t, |t|, x);
    InsertedAtEnd(t, x);
  }

  /** Inserting a single pair at a valid offset. */
  lemma InsertEachOne<E>(s: seq<E>, i: int, x: E)
    requires 0 <= i <= |s|
    ensures InsertEach(s, [(i, x)]) == Insertion(Inserted(s, i, x), false)
  {
    assert [(i, x)][1..] == [];
  }

  /** One step of `ReinsertRestores`: a last element that was kept stays behind the re-inserted ones. */
  lemma ReinsertKeptLast<E>(t: seq<E>, x: E, p: E -> bool)
    requires !p(x)
    requires InsertEach(Filter(t, p), Matches(t, p)) == Insertion(t, false)
    ensures InsertEach(Filter(t + [x], p), Matches(t + [x], p)) == Insertion(t + [x], false)
  {
    SnocKept(t, x, p);
    InsertEachAppend(Filter(t, p), [x], Matches(t, p));
  }

  /**
   * Undoing `removeAll(where:)`: inserting the captured pairs, in ascending order, at
   * their original offsets into what was left rebuilds the original array.
   */
  lemma {:induction false} ReinsertRestores<E>(s: seq<E>, p: E -> bool)
    ensures InsertEach(Filter(s, p), Matches(s, p)) == Insertion(s, false)
    decreases |s|
  {
    if s != [] {
      var n := |s| - 1;
      ReinsertRestores(s[..n], p);
      SplitLast(s);
      if p(s[n]) {
        ReinsertRemovedLast(s[..n], s[n], p);
      } else {
        ReinsertKeptLast(s[..n], s[n], p);
      }
    }
  }

  /**
   * The actions whose registered inverse restores the state exactly: everything but
   * `append(contentsOf:)` of other than one element, `removeLast`, the private re-insert
   * (only ever registered as an inverse), and actions that trap.
   */
  predicate Reversible<E>(op: Op<E>, d: Doc<E>)
  {
    match op
    case Append(_) => true
    case AppendContents(t) => |t| == 1
    case Insert(_, i) => 0 <= i <= |d.items|
    case RemoveAll(_) => true
    case InsertBack(_, _) => false
    case RemoveAt(i) => 0 <= i < |d.items|
    case RemoveLast(_) => false
    case Replace(_) => true
    case Increment => IntMin <= d.index < IntMax
    case Decrement => IntMin < d.index <= IntMax
  }

  /**
   * Undo, then redo: the inverse of a reversible action restores the state it started
   * from, and the inverse the undo registers (the redo) behaves exactly like the
   * original action, registering the same inverse again.
   */
  lemma UndoRedoCycle<E>(op: Op<E>, d: Doc<E>)
    requires Reversible(op, d)
    ensures Apply(op, d).Done?
    ensures Apply(Apply(op, d).inverse, Apply(op, d).after).Done?
    ensures Apply(Apply(op, d).inverse, Apply(op, d).after).after == d
    ensures Apply(Apply(Apply(op, d).inverse, Apply(op, d).after).inverse, d) == Apply(op, d)
  {
    match op
    case Append(e) => AppendCycle(e, d);
    case AppendContents(t) => AppendCycle(t[0], d); assert t == [t[0]];
    case Insert(e, i) => InsertCycle(e, i, d);
    case RemoveAll(p) => RemoveAllCycle(p, d);
    case RemoveAt(i) => RemoveAtCycle(i, d);
    case Replace(_) =>
    case Increment =>
    case Decrement =>
  }

  lemma AppendCycle<E>(e: E, d: Doc<E>)
    ensures Apply(RemoveAt(|d.items|), d.(items := d.items + [e])) == Done(d, Insert(e, |d.items|))
    ensures Apply(Insert(e, |d.items|), d) == Done(d.(items := d.items + [e]), RemoveAt(|d.items|))
  {
    RemoveUndoesInsert(d.items, |d.items|, e);
    InsertedAtEnd(d.items, e);
  }

  lemma InsertCycle<E>(e: E, i: int, d: Doc<E>)
    requires 0 <= i <= |d.items|
    ensures Apply(RemoveAt(i), d.(items := Inserted(d.items, i, e))) == Done(d, Insert(e, i))
  {
    RemoveUndoesInsert(d.items, i, e);
  }

  lemma RemoveAllCycle<E>(p: E -> bool, d: Doc<E>)
    ensures Apply(InsertBack(Matches(d.items, p), p), d.(items := Filter(d.items, p))) == Done(d, RemoveAll(p))
  {
    ReinsertRestores(d.items, p);
  }

  lemma RemoveAtCycle<E>(i: int, d: Doc<E>)
    requires 0 <= i < |d.items|
    ensures Apply(Insert(d.items[i], i), d.(items := Removed(d.items, i))) == Done(d, RemoveAt(i))
  {
    InsertUndoesRemove(d.items, i);
  }

  /** `increment()` then its registered `decrement()` gives back the start, for any start below `Int.max`. */
  lemma CounterRoundTrip<E>(d: Doc<E>)
    requires IntMin <= d.index < IntMax
    ensures Apply(Increment, d) == Done(d.(index := d.index + 1), Decrement)
    ensures Apply(Decrement, d.(index := d.index + 1)) == Done(d, Increment)
  {
  }

  // ---------------------------------------------------------------------------
  // Where the registered inverse does not restore the state
  // ---------------------------------------------------------------------------

  /**
   * `append(contentsOf:)` registers `remove(at: count)`, which takes out one element:
   * the undo traps when nothing was appended, leaves all but the first appended element
   * otherwise, and so restores the array exactly when one element was appended.
   */
  lemma AppendContentsUndo<E>(t: seq<E>, d: Doc<E>)
    ensures Apply(AppendContents(t), d) == Done(d.(items := d.items + t), RemoveAt(|d.items|))
    ensures Apply(RemoveAt(|d.items|), d.(items := d.items + t)).Trap? <==> t == []
    ensures t != [] ==> Apply(RemoveAt(|d.items|), d.(items := d.items + t)).after.items == d.items + t[1..]
    ensures Apply(RemoveAt(|d.items|), d.(items := d.items + t)).Done? && Apply(RemoveAt(|d.items|), d.(items := d.items + t)).after == d
            <==> |t| == 1
  {
    var s := d.items;
    if t != [] {
      assert Removed(s + t, |s|) == s + t[1..];
      if |t| != 1 {
        assert |s + t[1..]| != |s|;
      }
    }
  }

  /**
   * `removeLast(k)` as written: it succeeds exactly when `0 <= k < count` (the captured
   * slice `count - 1 - k ..< count` needs one element more than is removed), removes the
   * last k elements, and registers an append of the k + 1 captured elements, so its undo
   * always leaves one element too many.
   */
  lemma RemoveLastUndo<E>(k: int, d: Doc<E>)
    ensures Apply(RemoveLast(k), d).Done? <==> 0 <= k < |d.items|
    ensures 0 <= k < |d.items| ==>
      var o := Apply(RemoveLast(k), d);
      && o.after.items == d.items[..|d.items| - k]
      && o.inverse == AppendContents(d.items[|d.items| - 1 - k..])
      && |o.inverse.elements| == k + 1
      && Apply(o.inverse, o.after).Done?
      && |Apply(o.inverse, o.after).after.items| == |d.items| + 1
      && Apply(o.inverse, o.after).after != d
  {
  }

  /** A concrete case: removing the last of [1, 2] and undoing gives [1, 1, 2]. */
  lemma RemoveLastCounterexample()
    ensures Apply(RemoveLast(1), Doc([1, 2], 0)) == Done(Doc([1], 0), AppendContents([1, 2]))
    ensures Apply(AppendContents([1, 2]), Doc([1], 0)).after == Doc([1, 1, 2], 0)
  {
    var s := [1, 2];
    assert |s| == 2;
    assert s[..|s| - 1] == [1];
    assert s[|s| - 1 - 1..] == s;
    assert [1] + [1, 2] == [1, 1, 2];
  }

  // ---------------------------------------------------------------------------
  // A whole history: forward actions, then undo all, then redo all
  // ---------------------------------------------------------------------------

  /** A state together with the actions registered on the way to it, oldest first. */
  datatype Trail<!E> = Trail(doc: Doc<E>, registered: seq<Op<E>>)

  /** Runs actions in order, collecting their inverses; None if one traps. */
  function Forward<E>(ops: seq<Op<E>>, d: Doc<E>): Option<Trail<E>>
    decreases |ops|
  {
    if ops == [] then Some(Trail(d, []))
    else
      match Apply(ops[0], d)
      case Trap(_) => None
      case Done(d1, inv) =>
        match Forward(ops[1..], d1)
        case None => None
        case Some(t) => Some(Trail(t.doc, [inv] + t.registered))
  }

  /**
   * Runs registered inverses newest first, as the undo stack does; collects the actions
   * they register in turn (the redo actions), oldest first. None if one traps.
   */
  function UndoAll<E>(inverses: seq<Op<E>>, d: Doc<E>): Option<Trail<E>>
    decreases |inverses|
  {
    if inverses == [] then Some(Trail(d, []))
    else
      match UndoAll(inverses[1..], d)
      case None => None
      case Some(t) =>
        match Apply(inverses[0], t.doc)
        case Trap(_) => None
        case Done(d0, redo) => Some(Trail(d0, [redo] + t.registered))
  }

  /** Every action of the list is reversible in the state it meets. */
  predicate AllReversible<E>(ops: seq<Op<E>>, d: Doc<E>)
    decreases |ops|
  {
    ops == [] || (Reversible(ops[0], d) && AllReversible(ops[1..], Apply(ops[0], d).State()))
  }

  /**
   * After reversible actions O1 ... On, undoing n times returns to the starting state,
   * and redoing n times reproduces the whole forward run, inverses included.
   */
  lemma {:induction false} HistoryRoundTrip<E>(ops: seq<Op<E>>, d: Doc<E>)
    requires AllReversible(ops, d)
    ensures Forward(ops, d).Some?
    ensures UndoAll(Forward(ops, d).value.registered, Forward(ops, d).value.doc).Some?
    ensures UndoAll(Forward(ops, d).value.registered, Forward(ops, d).value.doc).value.doc == d
    ensures Forward(UndoAll(Forward(ops, d).value.registered, Forward(ops, d).value.doc).value.registered, d)
            == Forward(ops, d)
    decreases |ops|
  {
    if ops != [] {
      UndoRedoCycle(ops[0], d);
      var o := Apply(ops[0], d);
      HistoryRoundTrip(ops[1..], o.after);
      var t := Forward(ops[1..], o.after).value;
      var u := UndoAll(t.registered, t.doc).value;
      assert Forward(ops, d) == Some(Trail(t.doc, [o.inverse] + t.registered));
      assert ([o.inverse] + t.registered)[1..] == t.registered;
      var redo := Apply(o.inverse, o.after).inverse;
      assert UndoAll([o.inverse] + t.registered, t.doc) == Some(Trail(d, [redo] + u.registered));
      assert ([redo] + u.registered)[1..] == u.registered;
    }
  }
}
