/** The undo history: a stack of image snapshots, oldest first, whose last element is the top. */
module History {
  import opened Images

  /** `pushToUndoStack`: a deep copy of the image goes on top; a null image, or one that
      `deepCopy` refuses, leaves the stack as it was. */
  function Push(stack: seq<Image>, img: Option<Image>): (r: seq<Image>)
    ensures |r| == if DeepCopy(img).Some? then |stack| + 1 else |stack|
    ensures r[..|stack|] == stack
    ensures DeepCopy(img).Some? ==> r[|stack|] == DeepCopy(img).value
  {
    if DeepCopy(img).Some? then stack + [DeepCopy(img).value] else stack
  }

  /** `if (!undoStack.isEmpty()) undoStack.pop()`: the rollback of a speculative push. */
  function PopIfAny(stack: seq<Image>): (r: seq<Image>)
    ensures stack == [] ==> r == []
    ensures stack != [] ==> r + [stack[|stack| - 1]] == stack
  {
    if stack == [] then [] else stack[..|stack| - 1]
  }

  /** A push that succeeded is undone by the rollback. */
  lemma PopUndoesPush(stack: seq<Image>, img: Option<Image>)
    requires DeepCopy(img).Some?
    ensures PopIfAny(Push(stack, img)) == stack
  {
    assert Push(stack, img)[..|stack|] == stack;
  }

  /** The outcome of an undo: the new stack and the image restored as current, if any. */
  datatype Undone = Undone(stack: seq<Image>, restored: Option<Image>)

  /** `performUndo` as written: with more than one entry, pop the top and restore a copy of
      the entry now on top; with one entry, restore a copy of it and keep it; with none,
      nothing happens. */
  function Undo(stack: seq<Image>): (u: Undone)
    ensures |stack| > 1 ==> u.stack == stack[..|stack| - 1] && u.restored == DeepCopy(Some(stack[|stack| - 2]))
    ensures |stack| == 1 ==> u.stack == stack && u.restored == DeepCopy(Some(stack[0]))
    ensures stack == [] ==> u == Undone([], None)
  {
    if |stack| > 1 then
      var popped := stack[..|stack| - 1];
      Undone(popped, DeepCopy(Some(popped[|popped| - 1])))
    else if |stack| == 1 then Undone(stack, DeepCopy(Some(stack[0])))
    else Undone([], None)
  }

  /** Every edit pushes the image as it was BEFORE the edit, so the top of the stack is the
      state to go back to. `Undo` discards that snapshot and restores the one beneath it:
      undoing an edit whose snapshot `c` went onto a stack `s` restores `s`'s top instead. */
  lemma UndoSkipsLatestSnapshot(s: seq<Image>, c: Image)
    requires |s| >= 1 && c.width > 0 && c.height > 0
    ensures Undo(Push(s, Some(c))) == Undone(s, DeepCopy(Some(s[|s| - 1])))
  {
    assert Push(s, Some(c))[..|s|] == s;
  }

  /** A concrete run: open image `a`, edit it to `b` (snapshot `a` pushed), edit again
      (snapshot `b` pushed), undo once. The undo restores `a`, the image from before BOTH edits. */
  lemma UndoAfterTwoEditsRestoresOriginal()
    ensures var a := Image(1, 1, IntArgb, [[Pixel(0, 0, 0, 255)]]);
            var b := Image(1, 1, IntArgb, [[Pixel(255, 255, 255, 255)]]);
            var afterOpen := Push([], Some(a));
            var afterTwoEdits := Push(Push(afterOpen, Some(a)), Some(b));
            Undo(afterTwoEdits).restored == Some(a) && Some(a) != Some(b)
  {
    var a := Image(1, 1, IntArgb, [[Pixel(0, 0, 0, 255)]]);
    var b := Image(1, 1, IntArgb, [[Pixel(255, 255, 255, 255)]]);
    UndoSkipsLatestSnapshot(Push(Push([], Some(a)), Some(a)), b);
    assert a.rows[0][0] != b.rows[0][0];
  }

  /** `n` undos in a row, as written. */
  function UndoTimesAsWritten(stack: seq<Image>, n: nat): (u: Undone)
    decreases n
  {
    if n == 0 then Undone(stack, None)
    else if n == 1 then Undo(stack)
    else UndoTimesAsWritten(Undo(stack).stack, n - 1)
  }

  /** The as-written count after opening `f` and making N >= 2 edits: the first edit pushes `f`
      a second time, so the history is `[f, f] + rest` with |rest| = N - 1. Then N - 1 undos
      reach `[f, f]` and restore `f`, and every further undo restores `f` on the floor `[f]`.
      One step is lost: the first undo reverts two edits. */
  lemma {:induction false} AsWrittenReachesFloor(f: Image, rest: seq<Image>, extra: nat)
    requires |rest| >= 1 && f.width > 0 && f.height > 0
    ensures UndoTimesAsWritten([f, f] + rest, |rest|) == Undone([f, f], DeepCopy(Some(f)))
    ensures extra >= 1 ==> UndoTimesAsWritten([f, f] + rest, |rest| + extra) == Undone([f], DeepCopy(Some(f)))
    decreases |rest|
  {
    var s := [f, f] + rest;
    if |rest| == 1 {
      assert s[..|s| - 1] == [f, f];
      AsWrittenFloorIsFixed(f, extra);
    } else {
      var shorter := rest[..|rest| - 1];
      assert s[..|rest| + 1] == [f, f] + shorter;
      AsWrittenReachesFloor(f, shorter, extra);
      assert UndoTimesAsWritten(s, |rest|) == UndoTimesAsWritten([f, f] + shorter, |shorter|);
      if extra >= 1 {
        assert UndoTimesAsWritten(s, |rest| + extra) == UndoTimesAsWritten([f, f] + shorter, |shorter| + extra);
      }
    }
  }

  /** As written, undos from `[f, f]` drop to the floor `[f]` and then keep restoring `f`. */
  lemma {:induction false} AsWrittenFloorIsFixed(f: Image, n: nat)
    requires f.width > 0 && f.height > 0
    ensures n >= 1 ==> UndoTimesAsWritten([f, f], n + 1) == Undone([f], DeepCopy(Some(f)))
    ensures n >= 1 ==> UndoTimesAsWritten([f], n) == Undone([f], DeepCopy(Some(f)))
    decreases n
  {
    assert [f, f][..1] == [f];
    if n > 1 {
      AsWrittenFloorIsFixed(f, n - 1);
    }
  }

  /** The corrected undo: with more than one entry, pop the top and restore a copy of the
      popped snapshot; the floor entry and the empty stack behave as in `Undo`. */
  function IntendedUndo(stack: seq<Image>): (u: Undone)
    ensures |stack| > 1 ==> u.stack == stack[..|stack| - 1] && u.restored == DeepCopy(Some(stack[|stack| - 1]))
    ensures |stack| <= 1 ==> u == Undo(stack)
  {
    if |stack| > 1 then Undone(stack[..|stack| - 1], DeepCopy(Some(stack[|stack| - 1])))
    else Undo(stack)
  }

  /** The corrected undo is the inverse of the push before an edit: it restores exactly the
      snapshot that edit pushed and leaves the stack as it was before. */
  lemma IntendedUndoRestoresSnapshot(s: seq<Image>, c: Image)
    requires |s| >= 1 && c.width > 0 && c.height > 0
    ensures IntendedUndo(Push(s, Some(c))) == Undone(s, DeepCopy(Some(c)))
  {
    assert Push(s, Some(c))[..|s|] == s;
  }

  /** `n` corrected undos in a row. */
  function UndoTimes(stack: seq<Image>, n: nat): (u: Undone)
    decreases n
  {
    if n == 0 then Undone(stack, None)
    else if n == 1 then IntendedUndo(stack)
    else UndoTimes(IntendedUndo(stack).stack, n - 1)
  }

  /** Undoing `k` edits made after opening: with the snapshots `snaps` pushed on the floor
      `[f]`, `|snaps|` corrected undos bring the stack back to `[f]` and restore the first
      snapshot; every undo after that keeps restoring the floor. */
  lemma {:induction false} UndoReachesFloor(f: Image, snaps: seq<Image>, extra: nat)
    requires |snaps| >= 1
    ensures var u := UndoTimes([f] + snaps, |snaps|);
            u.stack == [f] && u.restored == DeepCopy(Some(snaps[0]))
    ensures extra >= 1 ==> UndoTimes([f] + snaps, |snaps| + extra) == Undone([f], DeepCopy(Some(f)))
    decreases |snaps|
  {
    var s := [f] + snaps;
    if |snaps| == 1 {
      assert IntendedUndo(s).stack == [f];
      FloorIsFixed(f, extra);
    } else {
      var rest := snaps[..|snaps| - 1];
      assert s[..|s| - 1] == [f] + rest;
      assert IntendedUndo(s).stack == [f] + rest;
      UndoReachesFloor(f, rest, extra);
      assert UndoTimes(s, |snaps|) == UndoTimes([f] + rest, |rest|);
      if extra >= 1 {
        assert UndoTimes(s, |snaps| + extra) == UndoTimes([f] + rest, |rest| + extra);
      }
    }
  }

  /** On the floor every undo restores the floor and keeps the stack. */
  lemma {:induction false} FloorIsFixed(f: Image, n: nat)
    ensures n >= 1 ==> UndoTimes([f], n) == Undone([f], DeepCopy(Some(f)))
    ensures n >= 1 ==> UndoTimes([f], n + 1) == Undone([f], DeepCopy(Some(f)))
    decreases n
  {
    if n > 1 {
      FloorIsFixed(f, n - 1);
    }
  }
}
