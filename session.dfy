/**
 * The match/replace tab's own state (matchreplace.py, class MatchReplaceTab):
 * the undo stack, the last known message and the modified flag, and the
 * operations that update them step by step: setMessage, getMessage,
 * push_undo, do_undo, clear_history and do_replace.
 *
 * The editor component, the dialogs and the host's analyser are outside:
 * what the editor returns from getMessage is a parameter, and so are the
 * selection bounds, the scope box's item and whether the analyser succeeds.
 */
module Session {
  import opened Text
  import opened Request
  import opened History

  /** How do_undo ended: one of its two information dialogs, or a restore. */
  datatype UndoOutcome = NothingToUndo | NoEarlierState | Restored(message: string)

  /** How do_replace ended: one of its early returns, or a committed rewrite. */
  datatype ReplaceOutcome =
    | MissingPattern
    | NoMessage
    | SelectionMissing
    | SelectionEmpty
    | Applied(region: Option<Region>)

  /** getMessage: the editor's bytes when it has some, else the last known message. */
  function Latest(editorMessage: Option<string>, current: Option<string>): Option<string>
  {
    if editorMessage.Some? then editorMessage else current
  }

  class ReplaceTab {
    /** `_undo_stack`, oldest first. */
    var undoStack: seq<string>
    /** `_currentMessage`. */
    var currentMessage: Option<string>
    /** `_modified`. */
    var modified: bool

    ghost predicate Valid()
      reads this
    {
      WellFormed(undoStack)
    }

    constructor ()
      ensures Valid() && undoStack == [] && currentMessage == None && !modified
    {
      undoStack := [];
      currentMessage := None;
      modified := false;
    }

    /** setMessage: a new message (or none) replaces everything, history included. */
    method SetMessage(content: Option<string>)
      modifies this
      ensures Valid() && undoStack == [] && currentMessage == content && !modified
    {
      if content.None? {
        currentMessage := None;
        modified := false;
        undoStack := [];
        return;
      }
      currentMessage := content;
      modified := false;
      undoStack := [];
    }

    /** getMessage: adopt the editor's bytes when it has some. */
    method GetMessage(editorMessage: Option<string>) returns (msg: Option<string>)
      modifies this`currentMessage
      ensures currentMessage == Latest(editorMessage, old(currentMessage))
      ensures msg == currentMessage
    {
      if editorMessage.Some? {
        currentMessage := editorMessage;
      }
      msg := currentMessage;
    }

    /** push_undo */
    method PushUndo(snapshot: Option<string>)
      requires Valid()
      modifies this`undoStack
      ensures Valid()
      ensures undoStack == if snapshot.Some? then Pushed(old(undoStack), snapshot.value) else old(undoStack)
    {
      if snapshot.None? {
        return;
      }
      if |undoStack| > 0 && undoStack[|undoStack| - 1] == snapshot.value {
        return;
      }
      PushedWellFormed(undoStack, snapshot.value);
      undoStack := undoStack + [snapshot.value];
      if |undoStack| > MaxUndo {
        undoStack := undoStack[1..];
      }
    }

    /** The retraction in do_replace: pop the top only if it is `x`. */
    method PopIfTopIs(x: string)
      requires Valid()
      modifies this`undoStack
      ensures Valid()
      ensures undoStack == PopIfTop(old(undoStack), x)
    {
      if |undoStack| > 0 && undoStack[|undoStack| - 1] == x {
        PrefixNoAdjacentDuplicates(undoStack, |undoStack| - 1);
        undoStack := undoStack[..|undoStack| - 1];
      }
    }

    /**
     * do_undo: with an empty history, nothing (not even getMessage);
     * otherwise the undo step of the history against the shown message.
     */
    method DoUndo(editorMessage: Option<string>) returns (outcome: UndoOutcome)
      requires Valid()
      modifies this
      ensures Valid()
      ensures old(undoStack) == [] ==>
        && outcome == NothingToUndo && undoStack == []
        && currentMessage == old(currentMessage) && modified == old(modified)
      ensures old(undoStack) != [] ==>
        var shown := Latest(editorMessage, old(currentMessage));
        var step := Undone(old(undoStack), shown);
        && undoStack == step.stack
        && (step.restored.None? ==>
              outcome == NoEarlierState && currentMessage == shown && modified == old(modified))
        && (step.restored.Some? ==>
              outcome == Restored(step.restored.value) && currentMessage == step.restored && modified)
    {
      if undoStack == [] {
        outcome := NothingToUndo;
        return;
      }
      UndoneWellFormed(undoStack, Latest(editorMessage, currentMessage));
      var current := GetMessage(editorMessage);
      if undoStack != [] && current == Some(undoStack[|undoStack| - 1]) {
        undoStack := undoStack[..|undoStack| - 1];
      }
      if undoStack == [] {
        outcome := NoEarlierState;
        return;
      }
      var previous := undoStack[|undoStack| - 1];
      undoStack := undoStack[..|undoStack| - 1];
      currentMessage := Some(previous);
      modified := true;
      outcome := Restored(previous);
    }

    /** clear_history */
    method ClearHistory()
      modifies this`undoStack
      ensures Valid() && undoStack == []
    {
      undoStack := [];
    }

    /**
     * do_replace as written: reject an empty pattern, fetch the message,
     * push it, then rewrite in the chosen scope; a missing or empty selection
     * takes the pushed entry back if it is still on top, anything else is
     * committed and marks the tab modified. An invalid regular expression is
     * committed too: the text is unchanged and the pushed entry stays.
     */
    method DoReplace(editorMessage: Option<string>, m: MatchSpec, e: Engine, scope: Scope,
                     bounds: Option<(nat, nat)>, analyzerOk: bool) returns (outcome: ReplaceOutcome)
      requires Valid()
      modifies this
      ensures Valid()
      ensures m.pattern == [] ==>
        && outcome == MissingPattern && undoStack == old(undoStack)
        && currentMessage == old(currentMessage) && modified == old(modified)
      ensures m.pattern != [] && Latest(editorMessage, old(currentMessage)).None? ==>
        && outcome == NoMessage && undoStack == old(undoStack)
        && currentMessage == old(currentMessage) && modified == old(modified)
      ensures m.pattern != [] && Latest(editorMessage, old(currentMessage)).Some? ==>
        var orig := Latest(editorMessage, old(currentMessage)).value;
        match ReplaceInScope(orig, m, e, scope, bounds, analyzerOk)
        case Rewritten(rw) =>
          && outcome == Applied(rw.region) && undoStack == Pushed(old(undoStack), orig)
          && currentMessage == Some(rw.text) && modified
        case NoSelection =>
          && outcome == SelectionMissing && undoStack == PushThenRetract(old(undoStack), orig)
          && currentMessage == Some(orig) && modified == old(modified)
        case EmptySelection =>
          && outcome == SelectionEmpty && undoStack == PushThenRetract(old(undoStack), orig)
          && currentMessage == Some(orig) && modified == old(modified)
    {
      if m.pattern == [] {
        outcome := MissingPattern;
        return;
      }
      var orig := GetMessage(editorMessage);
      if orig.None? {
        outcome := NoMessage;
        return;
      }
      PushUndo(orig);
      match ReplaceInScope(orig.value, m, e, scope, bounds, analyzerOk)
      case NoSelection =>
        PopIfTopIs(orig.value);
        outcome := SelectionMissing;
      case EmptySelection =>
        PopIfTopIs(orig.value);
        outcome := SelectionEmpty;
      case Rewritten(rw) =>
        currentMessage := Some(rw.text);
        modified := true;
        outcome := Applied(rw.region);
    }

    /**
     * do_replace with the scope checked before the push, so that a missing
     * or empty selection leaves the history exactly as it was; a committed
     * rewrite is the same as in DoReplace.
     */
    method ReplaceKeepingHistory(editorMessage: Option<string>, m: MatchSpec, e: Engine, scope: Scope,
                                 bounds: Option<(nat, nat)>, analyzerOk: bool) returns (outcome: ReplaceOutcome)
      requires Valid()
      modifies this
      ensures Valid()
      ensures outcome.Applied? || undoStack == old(undoStack)
      ensures modified == (outcome.Applied? || old(modified))
      ensures m.pattern == [] ==> outcome == MissingPattern && currentMessage == old(currentMessage)
      ensures m.pattern != [] && Latest(editorMessage, old(currentMessage)).None? ==>
        outcome == NoMessage && currentMessage == old(currentMessage)
      ensures m.pattern != [] && Latest(editorMessage, old(currentMessage)).Some? ==>
        var orig := Latest(editorMessage, old(currentMessage)).value;
        match ReplaceInScope(orig, m, e, scope, bounds, analyzerOk)
        case Rewritten(rw) =>
          && outcome == Applied(rw.region) && undoStack == Pushed(old(undoStack), orig)
          && currentMessage == Some(rw.text)
        case NoSelection => outcome == SelectionMissing && currentMessage == Some(orig)
        case EmptySelection => outcome == SelectionEmpty && currentMessage == Some(orig)
    {
      if m.pattern == [] {
        outcome := MissingPattern;
        return;
      }
      var orig := GetMessage(editorMessage);
      if orig.None? {
        outcome := NoMessage;
        return;
      }
      match ReplaceInScope(orig.value, m, e, scope, bounds, analyzerOk)
      case NoSelection =>
        outcome := SelectionMissing;
      case EmptySelection =>
        outcome := SelectionEmpty;
      case Rewritten(rw) =>
        PushUndo(orig);
        currentMessage := Some(rw.text);
        modified := true;
        outcome := Applied(rw.region);
    }

    /**
     * The exception handler of do_replace: pop the top entry, if any, and
     * show it again; the tab is marked modified either way.
     */
    method RollBack()
      requires Valid()
      modifies this
      ensures Valid() && modified
      ensures old(undoStack) == [] ==> undoStack == [] && currentMessage == old(currentMessage)
      ensures old(undoStack) != [] ==>
        && undoStack == old(undoStack)[..|old(undoStack)| - 1]
        && currentMessage == Some(old(undoStack)[|old(undoStack)| - 1])
    {
      if undoStack != [] {
        var last := undoStack[|undoStack| - 1];
        PrefixNoAdjacentDuplicates(undoStack, |undoStack| - 1);
        undoStack := undoStack[..|undoStack| - 1];
        currentMessage := Some(last);
      }
      modified := true;
    }
  }
}
