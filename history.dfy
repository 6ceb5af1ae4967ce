/**
 * The bounded undo history of the match/replace tab (matchreplace.py:
 * MAX_UNDO, push_undo, do_undo, and the retraction in do_replace), stated
 * on values. The tab's methods are proved against these functions.
 * Snapshots are kept oldest first; the top is the last element.
 */
module History {
  import opened Text

  /** MAX_UNDO: at most this many snapshots are kept. */
  const MaxUndo: nat := 10

  /** No two neighbouring snapshots are the same. */
  predicate NoAdjacentDuplicates(st: seq<string>) {
    forall i :: 0 < i < |st| ==> st[i - 1] != st[i]
  }

  /** The invariant the tab keeps for its history. */
  predicate WellFormed(st: seq<string>) {
    |st| <= MaxUndo && NoAdjacentDuplicates(st)
  }

  /**
   * push_undo of a snapshot: nothing when the top already equals it,
   * otherwise append and, past the bound, drop the oldest entry once.
   */
  function Pushed(st: seq<string>, snapshot: string): seq<string>
  {
    if |st| > 0 && st[|st| - 1] == snapshot then st
    else if |st| + 1 > MaxUndo then (st + [snapshot])[1..]
    else st + [snapshot]
  }

  /** The check in do_replace: drop the top only when it equals `x`. */
  function PopIfTop(st: seq<string>, x: string): seq<string>
  {
    if |st| > 0 && st[|st| - 1] == x then st[..|st| - 1] else st
  }

  lemma {:induction false} PrefixNoAdjacentDuplicates(st: seq<string>, k: nat)
    requires NoAdjacentDuplicates(st) && k <= |st|
    ensures NoAdjacentDuplicates(st[..k])
  {
    forall i | 0 < i < k ensures st[..k][i - 1] != st[..k][i] {
      assert st[i - 1] != st[i];
    }
  }

  /** Pushing keeps the history well formed and leaves the snapshot on top. */
  lemma {:induction false} PushedWellFormed(st: seq<string>, snapshot: string)
    requires WellFormed(st)
    ensures WellFormed(Pushed(st, snapshot))
    ensures |Pushed(st, snapshot)| > 0 && Pushed(st, snapshot)[|Pushed(st, snapshot)| - 1] == snapshot
  {
    if |st| > 0 && st[|st| - 1] == snapshot {
    } else {
      var all := st + [snapshot];
      assert NoAdjacentDuplicates(all) by {
        forall i | 0 < i < |all| ensures all[i - 1] != all[i] {
          if i < |st| { assert st[i - 1] != st[i]; }
        }
      }
      if |st| + 1 > MaxUndo {
        forall i | 0 < i < |all| - 1 ensures all[1..][i - 1] != all[1..][i] {
          assert all[i] != all[i + 1];
        }
      }
    }
  }

  /**
   * A snapshot that differs from the top is kept together with the most
   * recent entries before it, at most MaxUndo in all: the oldest go first.
   */
  lemma PushedKeepsMostRecent(st: seq<string>, snapshot: string)
    requires WellFormed(st) && (|st| == 0 || st[|st| - 1] != snapshot)
    ensures var all := st + [snapshot];
      var kept := if |all| <= MaxUndo then |all| else MaxUndo;
      Pushed(st, snapshot) == all[|all| - kept..]
  {
  }

  /** Pushing the same snapshot twice is the same as pushing it once. */
  lemma PushedIdempotent(st: seq<string>, snapshot: string)
    ensures Pushed(Pushed(st, snapshot), snapshot) == Pushed(st, snapshot)
  {
  }

  /** The history after a run of replaces that started from the messages `ms`, in order. */
  function PushAll(st: seq<string>, ms: seq<string>): seq<string>
    decreases |ms|
  {
    if ms == [] then st else PushAll(Pushed(st, ms[0]), ms[1..])
  }

  /** While the bound is not reached, successive distinct messages are all kept. */
  lemma {:induction false} PushAllAppends(st: seq<string>, ms: seq<string>)
    requires NoAdjacentDuplicates(st + ms) && |st + ms| <= MaxUndo
    ensures PushAll(st, ms) == st + ms
    decreases |ms|
  {
    if ms != [] {
      var all := st + ms;
      if |st| > 0 {
        assert all[|st| - 1] != all[|st|];
      }
      assert Pushed(st, ms[0]) == st + [ms[0]];
      assert (st + [ms[0]]) + ms[1..] == all;
      PushAllAppends(st + [ms[0]], ms[1..]);
    }
  }

  /** The most recent MaxUndo entries of `all` (all of them when there are fewer). */
  function Newest(all: seq<string>): seq<string>
  {
    all[|all| - Min(|all|, MaxUndo)..]
  }

  /**
   * From a well-formed history, a run of successive distinct messages leaves
   * exactly the newest MaxUndo entries of the history followed by the run.
   */
  lemma {:induction false} PushAllKeepsMostRecent(st: seq<string>, ms: seq<string>)
    requires WellFormed(st) && NoAdjacentDuplicates(st + ms)
    ensures PushAll(st, ms) == Newest(st + ms)
    decreases |ms|
  {
    var all := st + ms;
    if ms == [] {
      assert all == st;
    } else {
      if |st| > 0 {
        assert all[|st| - 1] != all[|st|];
      }
      var k := if |st| + 1 > MaxUndo then 1 else 0;
      var st1 := Pushed(st, ms[0]);
      assert st1 == (st + [ms[0]])[k..];
      assert st1 + ms[1..] == all[k..];
      PushedWellFormed(st, ms[0]);
      SuffixNoAdjacentDuplicates(all, k);
      PushAllKeepsMostRecent(st1, ms[1..]);
      NewestOfSuffix(all, k);
    }
  }

  lemma {:induction false} SuffixNoAdjacentDuplicates(st: seq<string>, k: nat)
    requires NoAdjacentDuplicates(st) && k <= |st|
    ensures NoAdjacentDuplicates(st[k..])
  {
    forall i | 0 < i < |st| - k ensures st[k..][i - 1] != st[k..][i] {
      assert st[k + i - 1] != st[k + i];
    }
  }

  /** Dropping entries older than the newest MaxUndo does not change them. */
  lemma NewestOfSuffix(all: seq<string>, k: nat)
    requires k <= |all| && (k == 0 || |all| - k >= MaxUndo)
    ensures Newest(all[k..]) == Newest(all)
  {
    if k > 0 {
      assert all[k..][|all| - k - MaxUndo..] == all[|all| - MaxUndo..];
    }
  }

  /** A history and the message the editor shows. */
  datatype State = State(stack: seq<string>, shown: Option<string>)

  /** What one undo does to the history, and the snapshot it restores. */
  datatype UndoStep = UndoStep(stack: seq<string>, restored: Option<string>)

  /**
   * do_undo past its emptiness check: a top equal to the shown message is
   * dropped (it is the present state), then the next top is popped and
   * restored; with nothing left, nothing is restored.
   */
  function Undone(st: seq<string>, shown: Option<string>): UndoStep
  {
    var rest := if shown.Some? then PopIfTop(st, shown.value) else st;
    if rest == [] then UndoStep(rest, None)
    else UndoStep(rest[..|rest| - 1], Some(rest[|rest| - 1]))
  }

  /** An undo keeps the history well formed. */
  lemma UndoneWellFormed(st: seq<string>, shown: Option<string>)
    requires WellFormed(st)
    ensures WellFormed(Undone(st, shown).stack)
  {
    if |st| > 0 {
      PrefixNoAdjacentDuplicates(st, |st| - 1);
      var rest := st[..|st| - 1];
      if |rest| > 0 {
        PrefixNoAdjacentDuplicates(rest, |rest| - 1);
      }
    }
  }

  /**
   * Undo right after a replace that changed the message restores the message
   * the replace started from; below the bound, and when the history did not
   * already end with that message, it also restores the history.
   */
  lemma UndoAfterPush(st: seq<string>, before: string, after: string)
    requires WellFormed(st) && before != after
    ensures Undone(Pushed(st, before), Some(after)).restored == Some(before)
    ensures |st| < MaxUndo && (|st| == 0 || st[|st| - 1] != before) ==>
      Undone(Pushed(st, before), Some(after)).stack == st
  {
    PushedWellFormed(st, before);
  }

  /** `n` undos in a row, the editor showing each restored message in turn. */
  function UndoTimes(s: State, n: nat): State
    decreases n
  {
    if n == 0 then s
    else
      var step := Undone(s.stack, s.shown);
      UndoTimes(State(step.stack, if step.restored.Some? then step.restored else s.shown), n - 1)
  }

  /**
   * Undoing a run of pushes one step at a time walks back through the
   * pushed messages and ends at the first one, with the history as it was.
   */
  lemma {:induction false} UndoTimesWalksBack(st: seq<string>, ms: seq<string>, shown: string)
    requires NoAdjacentDuplicates(st + ms + [shown])
    ensures UndoTimes(State(st + ms, Some(shown)), |ms|) == State(st, Some((ms + [shown])[0]))
    decreases |ms|
  {
    if ms != [] {
      var all := st + ms + [shown];
      var last := ms[|ms| - 1];
      var front := ms[..|ms| - 1];
      assert all[|st| + |ms| - 1] != all[|st| + |ms|];
      assert st + ms == (st + front) + [last];
      assert Undone(st + ms, Some(shown)) == UndoStep(st + front, Some(last));
      assert st + front + [last] == (st + ms + [shown])[..|st| + |ms|];
      PrefixNoAdjacentDuplicates(all, |st| + |ms|);
      UndoTimesWalksBack(st, front, last);
      assert (front + [last])[0] == (ms + [shown])[0];
    }
  }

  /**
   * Undo after replaces: starting from a well-formed history `st` with the
   * editor showing ms[0], replaces that turn ms[0] into ms[1], ..., the last
   * of `ms` into `shown` (each one a real change), followed by as many
   * undos, bring back the message ms[0], as long as there were at most
   * MaxUndo of them. The history comes back as the newest entries of `st`
   * that survived the evictions: all of `st` when nothing was evicted.
   */
  lemma {:induction false} ReplacesThenUndosRestore(st: seq<string>, ms: seq<string>, shown: string)
    requires WellFormed(st) && |ms| <= MaxUndo && NoAdjacentDuplicates(st + ms + [shown])
    ensures var k := |st| - Min(|st|, MaxUndo - |ms|);
      UndoTimes(State(PushAll(st, ms), Some(shown)), |ms|) == State(st[k..], Some((ms + [shown])[0]))
    ensures |st + ms| <= MaxUndo ==>
      UndoTimes(State(PushAll(st, ms), Some(shown)), |ms|) == State(st, Some((ms + [shown])[0]))
  {
    var all := st + ms + [shown];
    var k := |st| - Min(|st|, MaxUndo - |ms|);
    PrefixNoAdjacentDuplicates(all, |st + ms|);
    assert all[..|st + ms|] == st + ms;
    PushAllKeepsMostRecent(st, ms);
    assert Newest(st + ms) == st[k..] + ms;
    SuffixNoAdjacentDuplicates(all, k);
    assert all[k..] == st[k..] + ms + [shown];
    UndoTimesWalksBack(st[k..], ms, shown);
    assert st[0..] == st;
  }

  /**
   * An undo restores nothing exactly when the history is empty, or holds
   * only the shown message; the history is then left empty.
   */
  lemma UndoneRestoresNothing(st: seq<string>, shown: Option<string>)
    ensures Undone(st, shown).restored.None? <==> st == [] || (shown.Some? && st == [shown.value])
    ensures Undone(st, shown).restored.None? ==> Undone(st, shown).stack == []
  {
  }

  /**
   * do_replace pushes the message, then on a missing or empty selection
   * takes it back only if it is still on top (lines 295 and 307-308).
   */
  function PushThenRetract(st: seq<string>, x: string): seq<string>
  {
    PopIfTop(Pushed(st, x), x)
  }

  /** Below the bound, with a top other than the message, the history comes back whole. */
  lemma RetractRestoresBelowBound(st: seq<string>, x: string)
    requires WellFormed(st) && |st| < MaxUndo && (|st| == 0 || st[|st| - 1] != x)
    ensures PushThenRetract(st, x) == st
  {
  }

  /** At the bound the push evicted the oldest entry, and the retraction does not bring it back. */
  lemma RetractAtBoundLosesOldest(st: seq<string>, x: string)
    requires |st| == MaxUndo && st[|st| - 1] != x
    ensures PushThenRetract(st, x) == st[1..] != st
  {
    assert |st[1..]| != |st|;
  }

  /** When the top already was the message, the push did nothing and the retraction removes that older entry. */
  lemma RetractDropsEqualTop(st: seq<string>, x: string)
    requires |st| > 0 && st[|st| - 1] == x
    ensures PushThenRetract(st, x) == st[..|st| - 1] != st
  {
    assert |st[..|st| - 1]| != |st|;
  }

  /**
   * A concrete case: ten distinct snapshots, a message not among them, and a
   * selection-scope replace with an empty selection; the oldest snapshot "0"
   * is gone afterwards.
   */
  lemma EmptySelectionAtBoundLosesOldest()
    ensures var st := ["0", "1", "2", "3", "4", "5", "6", "7", "8", "9"];
      WellFormed(st) && PushThenRetract(st, "x") == st[1..] && "0" !in PushThenRetract(st, "x")
  {
    var st := ["0", "1", "2", "3", "4", "5", "6", "7", "8", "9"];
    RetractAtBoundLosesOldest(st, "x");
  }
}
