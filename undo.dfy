/** The undo stack of gnome-bulk-rename/undo.py: two stacks of undo-like
    actions. The stack never moves an action from one stack to the other by
    itself; its owner decides, once the asynchronous undo or redo is done. */
module Undo {
  import opened Rows

  /** The stacks as values, for stating properties over several calls. */
  datatype Stacks<A> = Stacks(undo: seq<A>, redo: seq<A>)

  datatype Op<A> = PushOp(action: A) | PushToRedoOp(action: A) | UndoOp | RedoOp

  /** One call on the stacks: the new stacks and the action popped, if any. */
  function Step<A>(s: Stacks<A>, op: Op<A>): (r: (Stacks<A>, Option<A>))
    ensures op.UndoOp? && s.undo != [] ==> r.1 == Some(s.undo[|s.undo| - 1])
    ensures op.RedoOp? && s.redo != [] ==> r.1 == Some(s.redo[|s.redo| - 1])
    ensures op.PushOp? || op.PushToRedoOp? ==> r.1 == None
  {
    match op
    case PushOp(a) => (Stacks(s.undo + [a], []), None)
    case PushToRedoOp(a) => (Stacks(s.undo, s.redo + [a]), None)
    case UndoOp =>
      if s.undo == [] then (s, None) else (Stacks(s.undo[..|s.undo| - 1], s.redo), Some(s.undo[|s.undo| - 1]))
    case RedoOp =>
      if s.redo == [] then (s, None) else (Stacks(s.undo, s.redo[..|s.redo| - 1]), Some(s.redo[|s.redo| - 1]))
  }

  class UndoStack<A> {
    var undoStack: seq<A>
    var redoStack: seq<A>

    constructor ()
      ensures undoStack == [] && redoStack == []
    {
      undoStack, redoStack := [], [];
    }

    /** push: the action goes on top of the undo stack, and the redo stack is emptied. */
    method Push(action: A)
      modifies this
      ensures undoStack == old(undoStack) + [action]
      ensures redoStack == []
      ensures Stacks(undoStack, redoStack) == Step(Stacks(old(undoStack), old(redoStack)), PushOp(action)).0
    {
      undoStack := undoStack + [action];
      redoStack := [];
    }

    /** push_to_redo: the action goes on top of the redo stack; the undo stack is kept. */
    method PushToRedo(action: A)
      modifies this
      ensures redoStack == old(redoStack) + [action]
      ensures undoStack == old(undoStack)
      ensures Stacks(undoStack, redoStack) == Step(Stacks(old(undoStack), old(redoStack)), PushToRedoOp(action)).0
    {
      redoStack := redoStack + [action];
    }

    /** undo: pops the most recently pushed action, whose undo the caller then
        starts. On an empty stack `pop` raises IndexError: None, nothing changes. */
    method Undo() returns (action: Option<A>)
      modifies this
      ensures old(undoStack) == [] ==> action == None && undoStack == []
      ensures old(undoStack) != [] ==>
        action == Some(old(undoStack)[|old(undoStack)| - 1]) &&
        undoStack == old(undoStack)[..|old(undoStack)| - 1]
      ensures redoStack == old(redoStack)
      ensures Stacks(undoStack, redoStack) == Step(Stacks(old(undoStack), old(redoStack)), UndoOp).0
      ensures action == Step(Stacks(old(undoStack), old(redoStack)), UndoOp).1
    {
      if undoStack == [] {
        action := None;
      } else {
        action := Some(undoStack[|undoStack| - 1]);
        undoStack := undoStack[..|undoStack| - 1];
      }
    }

    /** redo: pops the top of the redo stack, whose redo the caller then starts.
        On an empty stack: None, nothing changes. */
    method Redo() returns (action: Option<A>)
      modifies this
      ensures old(redoStack) == [] ==> action == None && redoStack == []
      ensures old(redoStack) != [] ==>
        action == Some(old(redoStack)[|old(redoStack)| - 1]) &&
        redoStack == old(redoStack)[..|old(redoStack)| - 1]
      ensures undoStack == old(undoStack)
      ensures Stacks(undoStack, redoStack) == Step(Stacks(old(undoStack), old(redoStack)), RedoOp).0
      ensures action == Step(Stacks(old(undoStack), old(redoStack)), RedoOp).1
    {
      if redoStack == [] {
        action := None;
      } else {
        action := Some(redoStack[|redoStack| - 1]);
        redoStack := redoStack[..|redoStack| - 1];
      }
    }
  }

  /** The stacks after a sequence of calls. */
  function Run<A>(s: Stacks<A>, ops: seq<Op<A>>): Stacks<A>
    decreases |ops|
  {
    if ops == [] then s else Run(Step(s, ops[0]).0, ops[1..])
  }

  /** An action only ever enters a stack through its own push call: after any
      sequence of calls, every action on either stack was already there or was
      the argument of some push or push_to_redo in the sequence. */
  lemma {:induction false} ActionsComeFromPushes<A>(s: Stacks<A>, ops: seq<Op<A>>, a: A)
    requires a in Run(s, ops).undo || a in Run(s, ops).redo
    ensures a in s.undo || a in s.redo ||
      exists k :: 0 <= k < |ops| && (ops[k] == PushOp(a) || ops[k] == PushToRedoOp(a))
    decreases |ops|
  {
    if ops != [] {
      var s' := Step(s, ops[0]).0;
      ActionsComeFromPushes(s', ops[1..], a);
      if exists k :: 0 <= k < |ops[1..]| && (ops[1..][k] == PushOp(a) || ops[1..][k] == PushToRedoOp(a)) {
        var k :| 0 <= k < |ops[1..]| && (ops[1..][k] == PushOp(a) || ops[1..][k] == PushToRedoOp(a));
        assert ops[k + 1] == ops[1..][k];
      } else if a in s'.undo || a in s'.redo {
        match ops[0]
        case PushOp(b) =>
          if a != b {
            assert a in s.undo by {
              assert s'.undo == s.undo + [b];
            }
          }
        case PushToRedoOp(b) =>
          if a != b {
            assert s'.redo == s.redo + [b];
          }
        case UndoOp =>
          if s.undo != [] {
            assert s'.undo == s.undo[..|s.undo| - 1];
            assert a in s.undo || a in s.redo;
          }
        case RedoOp =>
          if s.redo != [] {
            assert s'.redo == s.redo[..|s.redo| - 1];
            assert a in s.undo || a in s.redo;
          }
      }
    }
  }

  /** Undo is last in, first out: pushing actions and then undoing as many
      times gives them back in reverse order and restores the undo stack. */
  lemma {:induction false} PushThenUndoIsLifo<A>(s: Stacks<A>, a: A, b: A)
    ensures var s1 := Run(s, [PushOp(a), PushOp(b)]);
      Step(s1, UndoOp).1 == Some(b) &&
      Step(Step(s1, UndoOp).0, UndoOp).1 == Some(a) &&
      Step(Step(s1, UndoOp).0, UndoOp).0 == Stacks(s.undo, [])
  {
    var s1 := Run(s, [PushOp(a), PushOp(b)]);
    assert [PushOp(a), PushOp(b)][1..] == [PushOp(b)];
    assert [PushOp(b)][1..] == [];
    var s0 := Step(s, PushOp(a)).0;
    assert s0 == Stacks(s.undo + [a], []);
    assert Run(s, [PushOp(a), PushOp(b)]) == Run(s0, [PushOp(b)]);
    assert Run(s0, [PushOp(b)]) == Run(Step(s0, PushOp(b)).0, []);
    assert s1 == Stacks(s.undo + [a] + [b], []);
    assert (s.undo + [a] + [b])[..|s.undo| + 1] == s.undo + [a];
    assert (s.undo + [a])[..|s.undo|] == s.undo;
  }
}
