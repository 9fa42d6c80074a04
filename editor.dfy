/** The editing session of `MiniPhoto`: the image slots, the undo stack, the brightness
    slider, the mode flags, and the handlers that drive them. */
module Editor {
  import opened Images
  import opened Geometry
  import opened Effects
  import opened History

  // ---------------------------------------------------------------- image slots

  /** The image slots of the session: `currentImage`, `brightnessBaseImage`,
      `imageForGrayscaleToggle`, `originalLoadedImage`, the panel's `imageToDisplay`,
      the undo stack and the brightness slider's value. */
  datatype Pictures = Pictures(current: Option<Image>, base: Option<Image>, backup: Option<Image>,
                               original: Option<Image>, displayed: Option<Image>,
                               stack: seq<Image>, slider: int)

  /** Every slot and snapshot is a well-formed raster and the slider is within its range. */
  predicate WfPictures(p: Pictures) {
    WfOpt(p.current) && WfOpt(p.base) && WfOpt(p.backup) && WfOpt(p.original) && WfOpt(p.displayed) &&
    (forall i :: 0 <= i < |p.stack| ==> p.stack[i].Wf()) && -100 <= p.slider <= 100
  }

  lemma PushKeepsWf(stack: seq<Image>, img: Option<Image>)
    requires WfOpt(img) && forall i :: 0 <= i < |stack| ==> stack[i].Wf()
    ensures var r := Push(stack, img); forall i :: 0 <= i < |r| ==> r[i].Wf()
  {
    var r := Push(stack, img);
    forall i | 0 <= i < |r| ensures r[i].Wf() {
      if i < |stack| {
        assert r[i] == r[..|stack|][i];
      }
    }
  }

  lemma PopKeepsWf(stack: seq<Image>)
    requires forall i :: 0 <= i < |stack| ==> stack[i].Wf()
    ensures var r := PopIfAny(stack); forall i :: 0 <= i < |r| ==> r[i].Wf()
  {
  }

  /** A non-null image with a non-empty extent: one `deepCopy` accepts. */
  predicate Positive(img: Option<Image>) {
    img.Some? && img.value.width > 0 && img.value.height > 0
  }

  /** The slider's change listener when the value is final (`getValueIsAdjusting()` false):
      push the current image, recompute it from the base with the slider's factor, re-base.
      If the base cannot be copied, `currentImage` becomes null and the push is rolled back. */
  function Commit(p: Pictures): (q: Pictures)
    requires WfPictures(p)
    ensures WfPictures(q)
    ensures q.backup == p.backup && q.original == p.original && q.slider == p.slider
  {
    if p.current.None? || p.base.None? then p
    else
      PushKeepsWf(p.stack, p.current);
      var pushed := Push(p.stack, p.current);
      var copy := DeepCopy(p.base);
      if copy.None? then
        PopKeepsWf(pushed);
        p.(current := None, stack := PopIfAny(pushed))
      else
        var bright := Brighten(copy.value, p.slider);
        p.(current := Some(bright), base := DeepCopy(Some(bright)), displayed := Some(bright), stack := pushed)
  }

  /** The listener while the slider is being dragged: a brightened copy of the base is shown
      and nothing else changes. */
  function Preview(p: Pictures): (q: Pictures)
    requires WfPictures(p)
    ensures WfPictures(q)
    ensures q == p.(displayed := q.displayed)
    ensures Positive(p.current) ==> q.displayed != p.displayed ==> Positive(p.base) && q.displayed.Some?
    ensures Positive(p.current) && Positive(p.base) ==> q.displayed == Some(Brighten(DeepCopy(p.base).value, p.slider))
  {
    if p.current.None? || p.base.None? || DeepCopy(p.base).None? then p
    else p.(displayed := Some(Brighten(DeepCopy(p.base).value, p.slider)))
  }

  /** `brightnessSlider.setValue(0)`: Swing runs the change listener, with a final value, only
      when the value actually changes. */
  function ResetSlider(p: Pictures): (q: Pictures)
    requires WfPictures(p)
    ensures WfPictures(q) && q.slider == 0
    ensures p.slider == 0 ==> q == p
  {
    if p.slider == 0 then p else Commit(p.(slider := 0))
  }

  /** `imagePanel.setImage(currentImage); brightnessBaseImage = deepCopy(currentImage)`: a
      shorthand for the shared tail of the committed edits, stated through the lemmas about them. */
  function Refreshed(p: Pictures): (q: Pictures)
    requires WfPictures(p)
    ensures WfPictures(q)
  {
    p.(displayed := p.current, base := DeepCopy(p.current))
  }

  /** A committed brightness change pushes the previous image, makes the current image the
      base brightened by the slider's factor, and makes that result the new base. */
  lemma CommitRebases(p: Pictures)
    requires WfPictures(p) && Positive(p.current) && Positive(p.base)
    ensures var q := Commit(p);
            |q.stack| == |p.stack| + 1 && q.stack[..|p.stack|] == p.stack &&
            q.stack[|p.stack|] == DeepCopy(p.current).value &&
            q.current == Some(Brighten(DeepCopy(p.base).value, p.slider)) &&
            q.base == DeepCopy(q.current) && q.displayed == q.current && q.backup == p.backup
  {
  }

  /** What a live drag shows is exactly what the commit at the same value stores. */
  lemma PreviewMatchesCommit(p: Pictures)
    requires WfPictures(p) && Positive(p.current) && Positive(p.base)
    ensures Preview(p).displayed == Commit(p).current
  {
  }

  /** Live previews are never persisted: a commit after a preview is the commit without it. */
  lemma PreviewNotPersisted(p: Pictures)
    requires WfPictures(p) && Positive(p.base)
    ensures Commit(Preview(p)) == Commit(p)
  {
  }

  /** Brightness is relative to the last committed base: two commits in a row compose, the
      second starting from the result of the first. */
  lemma CommitsCompose(p: Pictures, v: int)
    requires WfPictures(p) && Positive(p.current) && Positive(p.base) && p.base.value.kind != Custom
    requires -100 <= v <= 100
    ensures var q := Commit(Commit(p).(slider := v));
            q.current == Some(Brighten(Brighten(p.base.value, p.slider), v))
  {
  }

  /** Resetting a non-zero slider after an edit that re-based on the current image adds a
      second snapshot of that image and leaves every image slot as it was. */
  lemma {:induction false} ResetSliderDuplicates(p: Pictures)
    requires WfPictures(p) && Positive(p.current) && p.current.value.kind != Custom
    requires p.base == p.current && p.displayed == p.current && p.slider != 0
    ensures ResetSlider(p) == p.(slider := 0, stack := p.stack + [p.current.value])
  {
    BrightenZero(p.current.value);
  }

  // ---------------------------------------------------------------- committed edits

  /** `toggleGrayscale`. With no image nothing happens. Otherwise the current image is pushed;
      a gray image (by type or by sampling) is replaced by a copy of the colour backup, and
      without a backup the push is rolled back and nothing else changes; a colour image is
      backed up and replaced by its gray conversion. Then the image is shown, re-based, and
      the slider reset. */
  function Toggled(p: Pictures): (q: Pictures)
    requires WfPictures(p)
    ensures WfPictures(q)
    ensures p.current.None? ==> q == p
  {
    if p.current.None? then p
    else
      PushKeepsWf(p.stack, p.current);
      var pushed := Push(p.stack, p.current);
      var cur := p.current.value;
      if cur.kind == ByteGray || SampleIsGray(p.current) then
        if p.backup.None? then
          PopKeepsWf(pushed);
          p.(stack := PopIfAny(pushed))
        else ResetSlider(Refreshed(p.(current := DeepCopy(p.backup), stack := pushed)))
      else
        ResetSlider(Refreshed(p.(backup := DeepCopy(p.current), current := Some(ToGray(cur)), stack := pushed)))
  }

  /** A toggle that finds a gray image and no backup is a no-op: the speculative push is
      rolled back. */
  lemma {:induction false} ToggleWithoutBackupIsNoop(p: Pictures)
    requires WfPictures(p) && Positive(p.current) && p.backup.None?
    requires p.current.value.kind == ByteGray || SampleIsGray(p.current)
    ensures Toggled(p) == p
  {
    PopUndoesPush(p.stack, p.current);
  }

  /** Restoring colour: a gray image (by type or by sampling) with a backup pushes exactly one
      snapshot, the gray image, and the backup becomes current, shown and base; the backup
      itself is kept. */
  lemma ToggleRestoresBackup(p: Pictures)
    requires WfPictures(p) && Positive(p.current) && p.current.value.kind != Custom
    requires p.current.value.kind == ByteGray || SampleIsGray(p.current)
    requires Positive(p.backup) && p.backup.value.kind != Custom && p.slider == 0
    ensures Toggled(p) == p.(current := p.backup, displayed := p.backup, base := p.backup,
                             stack := p.stack + [p.current.value])
  {
  }

  /** Converting a colour image: the old current image becomes the backup, the new one is a
      gray image of the same extent, and exactly one snapshot is pushed. */
  lemma ToggleColourImage(p: Pictures)
    requires WfPictures(p) && Positive(p.current) && p.current.value.kind != Custom
    requires !SampleIsGray(p.current) && p.slider == 0
    ensures var q := Toggled(p);
            q.backup == p.current && q.current == Some(ToGray(p.current.value)) &&
            q.current.value.width == p.current.value.width && q.current.value.height == p.current.value.height &&
            q.stack == p.stack + [p.current.value] && q.base == q.current
  {
  }

  /** Toggling a colour image twice restores it pixel for pixel, two snapshots deeper. */
  lemma {:induction false} ToggleRoundTrip(p: Pictures)
    requires WfPictures(p) && Positive(p.current) && p.current.value.kind != Custom
    requires !SampleIsGray(p.current) && p.slider == 0
    ensures var q := Toggled(Toggled(p));
            q.current == p.current && q.backup == p.current && q.base == p.current &&
            q.stack == p.stack + [p.current.value, ToGray(p.current.value)]
  {
    ToggleColourImage(p);
    var q := Toggled(p);
    assert SampleIsGray(q.current);
  }

  /** The corner and extent `applyCrop` cuts for a press at `start` and a release at `end` on a
      `w` by `h` image: the spanned rectangle, clamped onto the image. */
  function CropArea(start: Point, end: Point, w: int, h: int): (r: Rect)
    ensures r.width > 0 && r.height > 0 ==> InBounds(r, w, h)
  {
    ClampRect(Span(start, end), w, h)
  }

  /** The committed branch of `applyCrop`: push, cut, back up, show, re-base, reset the slider. */
  function Cropped(p: Pictures, r: Rect): (q: Pictures)
    requires WfPictures(p) && p.current.Some? && InBounds(r, p.current.value.width, p.current.value.height)
    ensures WfPictures(q)
  {
    var cut := Some(SubImage(p.current.value, r));
    PushKeepsWf(p.stack, p.current);
    ResetSlider(Refreshed(p.(stack := Push(p.stack, p.current), current := cut, backup := DeepCopy(cut))))
  }

  /** A committed crop makes the cut the current image. With the slider at 0 it pushes
      exactly one snapshot, the image before the crop, and the cut is also backup and base;
      with the slider off 0, the slider reset pushes the cut as a second snapshot. */
  lemma {:induction false} CropCommits(p: Pictures, r: Rect)
    requires WfPictures(p) && p.current.Some? && InBounds(r, p.current.value.width, p.current.value.height)
    ensures var q := Cropped(p, r);
            q.current.Some? && q.current.value.width == r.width && q.current.value.height == r.height
    ensures var q := Cropped(p, r);
            p.slider == 0 ==>
              q.stack == p.stack + [DeepCopy(p.current).value] &&
              q.current == Some(SubImage(p.current.value, r)) &&
              q.base == DeepCopy(q.current) && q.backup == DeepCopy(q.current)
    ensures var q := Cropped(p, r);
            p.slider != 0 && p.current.value.kind != Custom ==>
              q.stack == p.stack + [p.current.value, SubImage(p.current.value, r)] &&
              q.current == Some(SubImage(p.current.value, r)) && q.base == q.current && q.backup == q.current
  {
    var cut := Some(SubImage(p.current.value, r));
    PushKeepsWf(p.stack, p.current);
    var q := Refreshed(p.(stack := Push(p.stack, p.current), current := cut, backup := DeepCopy(cut)));
    CropResetKeepsExtent(q);
    if p.slider != 0 && p.current.value.kind != Custom {
      ResetSliderDuplicates(q);
    }
  }

  lemma CropResetKeepsExtent(q: Pictures)
    requires WfPictures(q) && Positive(q.current) && q.base == DeepCopy(q.current)
    ensures var s := ResetSlider(q);
            s.current.Some? && s.current.value.width == q.current.value.width &&
            s.current.value.height == q.current.value.height
  {
  }

  /** Cropping to the part of a request that fits: with the corner on the image, the cut is
      exactly min(requested, available) wide and high and never leaves the image. */
  lemma CropClampsToImage(p: Pictures, start: Point, end: Point)
    requires WfPictures(p) && p.current.Some?
    requires 0 <= start.x && 0 <= start.y && start.x <= end.x && start.y <= end.y
    requires var img := p.current.value; start.x < img.width && start.y < img.height
    ensures var img := p.current.value; var r := CropArea(start, end, img.width, img.height);
            r.width == Min(end.x - start.x, img.width - start.x) &&
            r.height == Min(end.y - start.y, img.height - start.y) &&
            r.x + r.width <= img.width && r.y + r.height <= img.height
  {
  }

  /** `applyCrop` applied to the slots: without an image or both corners nothing changes;
      otherwise the spanned rectangle is clamped onto the image and, if it still covers a
      pixel, cut out. */
  function CropOutcome(p: Pictures, start: Option<Point>, end: Option<Point>): (q: Pictures)
    requires WfPictures(p)
    ensures WfPictures(q)
  {
    if p.current.None? || start.None? || end.None? then p
    else
      var r := CropArea(start.value, end.value, p.current.value.width, p.current.value.height);
      if r.width > 0 && r.height > 0 then Cropped(p, r) else p
  }

  /** Every outcome of `applyCrop` with both corners set: a selection that clamps to no pixel
      changes nothing; otherwise, with the slider at 0, exactly one snapshot is pushed and the
      clamped cut becomes current, base and backup. */
  lemma CropOutcomeCases(p: Pictures, start: Point, end: Point)
    requires WfPictures(p) && p.current.Some?
    ensures var r := CropArea(start, end, p.current.value.width, p.current.value.height);
            var q := CropOutcome(p, Some(start), Some(end));
            (r.width <= 0 || r.height <= 0) ==> q == p
    ensures var r := CropArea(start, end, p.current.value.width, p.current.value.height);
            var q := CropOutcome(p, Some(start), Some(end));
            r.width > 0 && r.height > 0 && p.slider == 0 ==>
              |q.stack| == |p.stack| + 1 && q.stack[..|p.stack|] == p.stack &&
              q.current == Some(SubImage(p.current.value, r)) &&
              q.current.value.width == r.width && q.current.value.height == r.height &&
              q.base == DeepCopy(q.current) && q.backup == DeepCopy(q.current)
  {
    var r := CropArea(start, end, p.current.value.width, p.current.value.height);
    if r.width > 0 && r.height > 0 {
      CropCommits(p, r);
    }
  }

  /** `performUndo` (as written) applied to the image slots: restore from `Undo`, back up,
      re-base and reset the slider; with an empty stack nothing changes. */
  function AfterUndo(p: Pictures): (q: Pictures)
    requires WfPictures(p)
    ensures WfPictures(q)
    ensures p.stack == [] ==> q == p
  {
    if p.stack == [] then p
    else
      var u := Undo(p.stack);
      assert forall i :: 0 <= i < |u.stack| ==> u.stack[i] == p.stack[i];
      Restored(p.(stack := u.stack), u.restored)
  }

  /** With the slider at 0, `performUndo` drops the top snapshot and restores the one now on
      top (the finding), or on the floor restores the floor and keeps it; the restored image
      is current, shown, backup and base. */
  lemma UndoRestores(p: Pictures)
    requires WfPictures(p) && p.slider == 0
    ensures var q := AfterUndo(p);
            |p.stack| > 1 ==>
              q.stack == p.stack[..|p.stack| - 1] &&
              q.current == DeepCopy(Some(q.stack[|q.stack| - 1])) &&
              q.base == q.current && q.backup == q.current && q.displayed == q.current
    ensures var q := AfterUndo(p);
            |p.stack| == 1 ==>
              q.stack == p.stack && q.current == DeepCopy(Some(p.stack[0])) &&
              q.base == q.current && q.backup == q.current && q.displayed == q.current
  {
  }

  /** The corrected `performUndo` on the slots: the popped snapshot, the image from before the
      latest edit, is the one restored. */
  function IntendedAfterUndo(p: Pictures): (q: Pictures)
    requires WfPictures(p)
    ensures WfPictures(q)
    ensures p.stack == [] ==> q == p
  {
    if p.stack == [] then p
    else
      var u := IntendedUndo(p.stack);
      assert forall i :: 0 <= i < |u.stack| ==> u.stack[i] == p.stack[i];
      Restored(p.(stack := u.stack), u.restored)
  }

  /** With the corrected undo, undoing an edit of `c` whose snapshot went onto a history `s`
      brings back `c` as current, base and backup, and `s` as the history. */
  lemma IntendedUndoRevertsEdit(p: Pictures, s: seq<Image>, c: Image)
    requires WfPictures(p) && p.slider == 0 && |s| >= 1 && c.width > 0 && c.height > 0
    requires p.stack == Push(s, Some(c))
    ensures var q := IntendedAfterUndo(p);
            q.stack == s && q.current == DeepCopy(Some(c)) && q.base == q.current && q.backup == q.current
  {
    IntendedUndoRestoresSnapshot(s, c);
  }

  /** The tail of `performUndo`: `c` becomes the current image and is shown, backed up and
      re-based, and the slider is reset. A shorthand; `UndoRestores` states its outcome. */
  function Restored(p: Pictures, c: Option<Image>): (q: Pictures)
    requires WfPictures(p) && WfOpt(c)
    ensures WfPictures(q)
  {
    ResetSlider(p.(current := c, displayed := c, backup := DeepCopy(c), base := DeepCopy(c)))
  }

  // ---------------------------------------------------------------- text

  /** `String.trim()`: drop every leading and trailing character no greater than a space.
      A shorthand for `IsBlank`; `TrimEmptyIffBlank` states what it means. */
  function Trim(s: string): string {
    TrimEnd(TrimStart(s))
  }

  function TrimStart(s: string): string {
    if s != [] && s[0] <= ' ' then TrimStart(s[1..]) else s
  }

  function TrimEnd(s: string): string {
    if s != [] && s[|s| - 1] <= ' ' then TrimEnd(s[..|s| - 1]) else s
  }

  /** `text.trim().isEmpty()`. */
  predicate IsBlank(s: string) {
    |Trim(s)| == 0
  }

  /** A string trims to nothing exactly when every character is a space or a control character. */
  lemma {:induction false} TrimEmptyIffBlank(s: string)
    ensures IsBlank(s) <==> forall i :: 0 <= i < |s| ==> s[i] <= ' '
  {
    TrimStartEmpty(s);
    if TrimStart(s) != [] {
      TrimStartKeepsPrintable(s);
      TrimEndKeepsLead(TrimStart(s));
    }
  }

  lemma {:induction false} TrimStartEmpty(s: string)
    ensures TrimStart(s) == [] <==> forall i :: 0 <= i < |s| ==> s[i] <= ' '
    decreases |s|
  {
    if s != [] && s[0] <= ' ' {
      TrimStartEmpty(s[1..]);
      assert forall i :: 1 <= i < |s| ==> s[i] == s[1..][i - 1];
    }
  }

  lemma {:induction false} TrimStartKeepsPrintable(s: string)
    requires TrimStart(s) != []
    ensures TrimStart(s)[0] > ' '
    decreases |s|
  {
    if s != [] && s[0] <= ' ' {
      TrimStartKeepsPrintable(s[1..]);
    }
  }

  lemma {:induction false} TrimEndKeepsLead(s: string)
    requires s != [] && s[0] > ' '
    ensures TrimEnd(s) != []
    decreases |s|
  {
    if s[|s| - 1] <= ' ' {
      TrimEndKeepsLead(s[..|s| - 1]);
    }
  }

  /** Where `mouseReleased` inserts text: the corner of the dragged selection when it has an
      extent, else the point where the press began. */
  function TextAnchor(selection: Option<Rect>, start: Point): (p: Point)
    ensures selection.Some? && selection.value.width > 0 && selection.value.height > 0 ==>
              p == Point(selection.value.x, selection.value.y)
    ensures !(selection.Some? && selection.value.width > 0 && selection.value.height > 0) ==> p == start
  {
    if selection.Some? && selection.value.width > 0 && selection.value.height > 0 then
      Point(selection.value.x, selection.value.y)
    else start
  }

  /** The text dialog's outcome: cancelled, or a text and an index into the colour box. */
  type PaletteIndex = i: int | 0 <= i < 5
  datatype Prompt = Cancelled | Confirmed(text: string, colour: PaletteIndex)

  /** The colour box: black, red, green, blue, white. */
  const Palette: seq<Pixel> := [Black, Red, Green, Blue, White]

  /** `insertTextAtPoint` after its dialog: confirmed text that is not blank is drawn with its
      baseline at `point` (the pixels the renderer covers take the chosen colour), after one
      push; then the image is shown, re-based and the slider reset. */
  function TextInserted(p: Pictures, point: Point, prompt: Prompt, render: (string, Point) -> set<Point>): (q: Pictures)
    requires WfPictures(p)
    ensures WfPictures(q)
    ensures prompt.Cancelled? || IsBlank(prompt.text) || p.current.None? ==> q == p
  {
    if prompt.Cancelled? || IsBlank(prompt.text) || p.current.None? then p
    else
      PushKeepsWf(p.stack, p.current);
      var drawn := Some(Paint(p.current.value, render(prompt.text, point), Palette[prompt.colour]));
      ResetSlider(Refreshed(p.(stack := Push(p.stack, p.current), current := drawn)))
  }

  /** Confirmed text that is not blank, on an image and with the slider at 0, is one undoable
      edit: one snapshot of the image before it, and the painted image as current and base. */
  lemma TextInsertCommits(p: Pictures, point: Point, prompt: Prompt, render: (string, Point) -> set<Point>)
    requires WfPictures(p) && prompt.Confirmed? && !IsBlank(prompt.text) && Positive(p.current) && p.slider == 0
    ensures var q := TextInserted(p, point, prompt, render);
            q.stack == p.stack + [DeepCopy(p.current).value] && q.backup == p.backup &&
            q.current == Some(Paint(p.current.value, render(prompt.text, point), Palette[prompt.colour])) &&
            q.base == DeepCopy(q.current) && q.displayed == q.current
  {
  }

  // ---------------------------------------------------------------- open

  /** The image `resizeImageToFitPanel` makes of a non-empty `src` in a viewport with an
      extent: `src` scaled down by min(1, pw / w, ph / h), or a copy of it when the scaled
      extent is empty. */
  function FitToViewport(src: Image, viewport: Size): (f: Image)
    requires src.Wf() && src.width > 0 && src.height > 0 && viewport.width > 0 && viewport.height > 0
    ensures f.Wf() && 0 < f.width <= src.width && 0 < f.height <= src.height && f.kind != Custom
    ensures (f.width <= viewport.width && f.height <= viewport.height) ||
            (f.width == src.width && f.height == src.height && f.rows == src.rows)
    ensures src.width <= viewport.width && src.height <= viewport.height ==>
              f.width == src.width && f.height == src.height && f.rows == src.rows
  {
    var s := FitSize(src.width, src.height, viewport.width, viewport.height);
    if s.width <= 0 || s.height <= 0 then DeepCopy(Some(src)).value
    else if s == Size(src.width, src.height) then ResampleSameExtent(src); Resample(src, s.width, s.height)
    else Resample(src, s.width, s.height)
  }

  /** `resizeImageToFitPanel`'s effect on the slots: with a viewport of no extent, current is
      a copy of the source; a source of no extent clears current; otherwise current is the
      source fitted to the viewport, and unless the call is for undo or toggle, the backup is
      a copy of it. The panel shows the new current image. */
  function ResizedToFit(p: Pictures, src: Option<Image>, isUndoOrToggle: bool, viewport: Size): (q: Pictures)
    requires WfPictures(p) && WfOpt(src)
    ensures WfPictures(q)
    ensures q.original == p.original && q.stack == p.stack && q.base == p.base && q.slider == p.slider
  {
    if src.None? then p
    else if viewport.width <= 0 || viewport.height <= 0 then
      p.(current := DeepCopy(src), displayed := DeepCopy(src))
    else if src.value.width == 0 || src.value.height == 0 then p.(current := None, displayed := None)
    else
      var fitted := Some(FitToViewport(src.value, viewport));
      var q := p.(current := fitted, displayed := fitted);
      if isUndoOrToggle then q else q.(backup := DeepCopy(fitted))
  }

  /** Fitting a non-empty image into a viewport with an extent gives a non-empty current
      image, never larger than the source, shown, and (unless for undo or toggle) backed up;
      an image that already fits keeps its pixels. */
  lemma ResizeFits(p: Pictures, src: Option<Image>, isUndoOrToggle: bool, viewport: Size)
    requires WfPictures(p) && WfOpt(src) && Positive(src) && viewport.width > 0 && viewport.height > 0
    ensures var q := ResizedToFit(p, src, isUndoOrToggle, viewport);
            Positive(q.current) && q.current.value.width <= src.value.width && q.current.value.height <= src.value.height &&
            q.current.value.kind != Custom && q.displayed == q.current &&
            (isUndoOrToggle ==> q.backup == p.backup) && (!isUndoOrToggle ==> q.backup == q.current)
    ensures var q := ResizedToFit(p, src, isUndoOrToggle, viewport);
            src.value.width <= viewport.width && src.value.height <= viewport.height ==>
              q.current.value.rows == src.value.rows
  {
  }

  /** `openImage` once the file has been read (`loaded` is null when it could not be). */
  function Opened(p: Pictures, loaded: Option<Image>, viewport: Size): (q: Pictures)
    requires WfPictures(p) && WfOpt(loaded)
    ensures WfPictures(q)
    ensures loaded.None? ==> q == p
  {
    if loaded.None? then p
    else
      var q := ResizedToFit(p.(original := loaded, backup := None), loaded, false, viewport);
      PushKeepsWf([], q.current);
      ResetSlider(q.(stack := Push([], q.current), base := DeepCopy(q.current)))
  }

  /** After opening an image into a viewport: the history is exactly one floor snapshot of the
      fitted image, and base and backup are copies of it; a non-zero slider adds a second one. */
  lemma OpenedStartsHistory(p: Pictures, loaded: Option<Image>, viewport: Size)
    requires WfPictures(p) && WfOpt(loaded) && Positive(loaded)
    requires viewport.width > 0 && viewport.height > 0
    ensures var q := Opened(p, loaded, viewport);
            Positive(q.current) && q.base == q.current && q.backup == q.current &&
            q.original == loaded && q.stack == (if p.slider == 0 then [q.current.value] else [q.current.value, q.current.value])
  {
    var q := ResizedToFit(p.(original := loaded, backup := None), loaded, false, viewport);
    var r := q.(stack := Push([], q.current), base := DeepCopy(q.current));
    if p.slider != 0 {
      ResetSliderDuplicates(r);
    }
  }

  // ---------------------------------------------------------------- modes

  /** The five mode flags: `isCropping`, `isDrawing`, `isInsertingText`,
      `isDefiningTextBounds` and the draw check box's selection. */
  datatype Modes = Modes(cropping: bool, drawing: bool, insertingText: bool, definingTextBounds: bool, drawSelected: bool)

  /** The tagged mode the flags encode. */
  datatype EditMode = Idle | Cropping | Drawing(stroking: bool) | Text(definingBounds: bool)

  /** The flags are kept consistent: at most one of draw, crop and text is active, a stroke is
      only in progress in draw mode, and text bounds only while inserting text. */
  predicate Exclusive(m: Modes) {
    !(m.drawSelected && m.cropping) && !(m.drawSelected && m.insertingText) && !(m.cropping && m.insertingText) &&
    (m.drawing ==> m.drawSelected) && (m.definingTextBounds ==> m.insertingText)
  }

  function FlagsOf(e: EditMode): Modes {
    match e
    case Idle => Modes(false, false, false, false, false)
    case Cropping => Modes(true, false, false, false, false)
    case Drawing(s) => Modes(false, s, false, false, true)
    case Text(d) => Modes(false, false, true, d, false)
  }

  /** The mode the press handler acts on: draw first, then crop, then text. */
  function ModeOf(m: Modes): EditMode {
    if m.drawSelected then Drawing(m.drawing)
    else if m.cropping then Cropping
    else if m.insertingText then Text(m.definingTextBounds)
    else Idle
  }

  /** Consistent flags are exactly the encodings of a single tagged mode, so under `Exclusive`
      the handlers' priority order never has to break a tie. */
  lemma ModesEncodeOneMode(m: Modes, e: EditMode)
    ensures Exclusive(m) <==> FlagsOf(ModeOf(m)) == m
    ensures Exclusive(FlagsOf(e)) && ModeOf(FlagsOf(e)) == e
  {
  }

  /** The flags after `mousePressed` on an image: draw mode starts a stroke and leaves crop
      and text mode; crop mode leaves draw and text mode; text mode starts defining bounds. */
  function AfterPress(m: Modes): (n: Modes)
    ensures Exclusive(m) ==> Exclusive(n)
    ensures n.drawSelected == m.drawSelected
    ensures m.drawSelected ==> n.drawing && !n.cropping && !n.insertingText
    ensures !m.drawSelected && m.cropping ==> n.cropping && !n.drawing && !n.insertingText && !n.definingTextBounds
    ensures !m.drawSelected && !m.cropping && m.insertingText ==> n == m.(definingTextBounds := true)
    ensures !m.drawSelected && !m.cropping && !m.insertingText ==> n == m
  {
    if m.drawSelected then m.(drawing := true, cropping := false, insertingText := false, definingTextBounds := false)
    else if m.cropping then m.(drawing := false, insertingText := false, definingTextBounds := false)
    else if m.insertingText then m.(definingTextBounds := true)
    else m
  }

  /** The flags after `mouseReleased`: a stroke ends; a crop that fires leaves crop mode; text
      bounds that fire leave text mode. */
  function AfterRelease(m: Modes, cropFires: bool, textFires: bool): (n: Modes)
    ensures Exclusive(m) ==> Exclusive(n)
    ensures !n.drawing && n.drawSelected == m.drawSelected
    ensures !m.drawing && cropFires ==> !n.cropping
    ensures !m.drawing && !cropFires && textFires ==> !n.insertingText && !n.definingTextBounds
    ensures !m.drawing && !cropFires && !textFires ==> n == m
  {
    if m.drawing then m.(drawing := false)
    else if cropFires then m.(cropping := false)
    else if textFires then m.(insertingText := false, definingTextBounds := false)
    else m
  }

  /** A whole gesture returns to rest: a stroke leaves draw mode selected and idle, a crop
      that fires and text bounds that fire both end with every mode off. */
  lemma GesturesReturnToRest()
    ensures AfterRelease(AfterPress(FlagsOf(Drawing(false))), false, false) == FlagsOf(Drawing(false))
    ensures AfterRelease(AfterPress(FlagsOf(Cropping)), true, false) == FlagsOf(Idle)
    ensures AfterRelease(AfterPress(FlagsOf(Text(false))), false, true) == FlagsOf(Idle)
  {
  }

  function SizeOf(img: Option<Image>): Option<Size> {
    if img.None? then None else Some(Size(img.value.width, img.value.height))
  }

  // ---------------------------------------------------------------- the session

  class MiniPhoto {
    var currentImage: Option<Image>
    var originalLoadedImage: Option<Image>
    var imageForGrayscaleToggle: Option<Image>
    var brightnessBaseImage: Option<Image>
    var imageToDisplay: Option<Image>
    var undoStack: seq<Image>
    var sliderValue: int

    var isCropping: bool
    var cropStartPoint: Option<Point>
    var cropEndPoint: Option<Point>
    var isDrawing: bool
    var drawStartPoint: Option<Point>
    var isInsertingText: bool
    var isDefiningTextBounds: bool
    var textBoundsStart: Option<Point>
    var textBoundsEnd: Option<Point>
    var drawSelected: bool
    var cropSelection: Option<Rect>
    var textSelection: Option<Rect>

    /** The image slots, the undo stack and the slider. */
    ghost function Pics(): Pictures
      reads this`currentImage, this`brightnessBaseImage, this`imageForGrayscaleToggle,
            this`originalLoadedImage, this`imageToDisplay, this`undoStack, this`sliderValue
    {
      Pictures(currentImage, brightnessBaseImage, imageForGrayscaleToggle, originalLoadedImage,
               imageToDisplay, undoStack, sliderValue)
    }

    /** The mode flags. */
    ghost function Flags(): Modes
      reads this`isCropping, this`isDrawing, this`isInsertingText, this`isDefiningTextBounds, this`drawSelected
    {
      Modes(isCropping, isDrawing, isInsertingText, isDefiningTextBounds, drawSelected)
    }

    /** The image point a mouse event at panel point `at` addresses. */
    function ImagePoint(at: Point, panel: Size): Point
      reads this`imageToDisplay
    {
      PanelToImage(at, SizeOf(imageToDisplay), panel)
    }

    constructor ()
      ensures WfPictures(Pics()) && Exclusive(Flags())
      ensures Pics() == Pictures(None, None, None, None, None, [], 0)
      ensures Flags() == FlagsOf(Idle)
      ensures cropStartPoint.None? && cropEndPoint.None? && drawStartPoint.None? && textBoundsStart.None? &&
              textBoundsEnd.None? && cropSelection.None? && textSelection.None?
    {
      currentImage, originalLoadedImage, imageForGrayscaleToggle := None, None, None;
      brightnessBaseImage, imageToDisplay := None, None;
      undoStack, sliderValue := [], 0;
      isCropping, isDrawing, isInsertingText, isDefiningTextBounds, drawSelected := false, false, false, false, false;
      cropStartPoint, cropEndPoint, drawStartPoint, textBoundsStart, textBoundsEnd := None, None, None, None, None;
      cropSelection, textSelection := None, None;
    }

    // ------------------------------------------------------------ brightness slider

    /** The slider's change listener, reading the slider's current value. */
    method BrightnessChanged(adjusting: bool)
      requires WfPictures(Pics())
      modifies this`currentImage, this`brightnessBaseImage, this`imageToDisplay, this`undoStack
      ensures Pics() == if adjusting then Preview(old(Pics())) else Commit(old(Pics()))
      ensures WfPictures(Pics())
    {
      if currentImage.None? || brightnessBaseImage.None? {
        return;
      }
      if adjusting {
        var preview := DeepCopy(brightnessBaseImage);
        if preview.None? {
          return;
        }
        var shown := BrightenImage(preview.value, sliderValue);
        imageToDisplay := Some(shown);
      } else {
        PushToUndoStack(currentImage);
        currentImage := DeepCopy(brightnessBaseImage);
        if currentImage.None? {
          PopKeepsWf(undoStack);
          undoStack := PopIfAny(undoStack);
          return;
        }
        var bright := BrightenImage(currentImage.value, sliderValue);
        currentImage := Some(bright);
        brightnessBaseImage := DeepCopy(currentImage);
        imageToDisplay := currentImage;
      }
    }

    /** The user moves the slider to `value`; `adjusting` is `getValueIsAdjusting()`. */
    method SliderMoved(value: int, adjusting: bool)
      requires WfPictures(Pics()) && -100 <= value <= 100
      modifies this`currentImage, this`brightnessBaseImage, this`imageToDisplay, this`undoStack, this`sliderValue
      ensures Pics() == if adjusting then Preview(old(Pics()).(slider := value)) else Commit(old(Pics()).(slider := value))
      ensures WfPictures(Pics())
    {
      sliderValue := value;
      BrightnessChanged(adjusting);
    }

    /** `brightnessSlider.setValue(0)`: the listener runs only when the value changes. */
    method ResetSliderValue()
      requires WfPictures(Pics())
      modifies this`currentImage, this`brightnessBaseImage, this`imageToDisplay, this`undoStack, this`sliderValue
      ensures Pics() == ResetSlider(old(Pics()))
      ensures WfPictures(Pics())
    {
      if sliderValue != 0 {
        sliderValue := 0;
        BrightnessChanged(false);
      }
    }

    /** `pushToUndoStack`. */
    method PushToUndoStack(img: Option<Image>)
      requires WfPictures(Pics()) && WfOpt(img)
      modifies this`undoStack
      ensures undoStack == Push(old(undoStack), img)
      ensures WfPictures(Pics())
    {
      PushKeepsWf(undoStack, img);
      undoStack := Push(undoStack, img);
    }

    /** The common tail of the committed edits: show the current image, make a copy of it the
        brightness base, and reset the slider. */
    method ShowAndRebase()
      requires WfPictures(Pics())
      modifies this`currentImage, this`brightnessBaseImage, this`imageToDisplay, this`undoStack, this`sliderValue
      ensures Pics() == ResetSlider(Refreshed(old(Pics())))
      ensures WfPictures(Pics())
    {
      imageToDisplay := currentImage;
      brightnessBaseImage := DeepCopy(currentImage);
      ResetSliderValue();
    }

    // ------------------------------------------------------------ commands

    /** `openImage`, from the point where the chosen file has been decoded. */
    method OpenImage(loaded: Option<Image>, viewport: Size)
      requires WfPictures(Pics()) && WfOpt(loaded)
      modifies this`currentImage, this`brightnessBaseImage, this`imageForGrayscaleToggle,
               this`originalLoadedImage, this`imageToDisplay, this`undoStack, this`sliderValue
      ensures Pics() == Opened(old(Pics()), loaded, viewport)
      ensures WfPictures(Pics())
    {
      if loaded.None? {
        return;
      }
      originalLoadedImage := loaded;
      imageForGrayscaleToggle := None;
      ResizeImageToFitPanel(originalLoadedImage, false, viewport);
      undoStack := [];
      PushToUndoStack(currentImage);
      brightnessBaseImage := DeepCopy(currentImage);
      ResetSliderValue();
    }

    /** `resizeImageToFitPanel` for a viewport of the given extent. */
    method ResizeImageToFitPanel(src: Option<Image>, isUndoOrToggle: bool, viewport: Size)
      requires WfPictures(Pics()) && WfOpt(src)
      modifies this`currentImage, this`imageForGrayscaleToggle, this`imageToDisplay
      ensures Pics() == ResizedToFit(old(Pics()), src, isUndoOrToggle, viewport)
      ensures WfPictures(Pics())
    {
      if src.None? {
        return;
      }
      if viewport.width <= 0 || viewport.height <= 0 {
        currentImage := DeepCopy(src);
        imageToDisplay := currentImage;
        return;
      }
      var img := src.value;
      if img.width == 0 || img.height == 0 {
        currentImage := None;
        imageToDisplay := currentImage;
        return;
      }
      currentImage := Some(FitToViewport(img, viewport));
      imageToDisplay := currentImage;
      if !isUndoOrToggle {
        imageForGrayscaleToggle := DeepCopy(currentImage);
      }
    }

    /** `toggleGrayscale`. */
    method ToggleGrayscale()
      requires WfPictures(Pics())
      modifies this`currentImage, this`brightnessBaseImage, this`imageForGrayscaleToggle,
               this`imageToDisplay, this`undoStack, this`sliderValue
      ensures Pics() == Toggled(old(Pics()))
      ensures WfPictures(Pics())
    {
      if currentImage.None? {
        return;
      }
      PushToUndoStack(currentImage);
      var detected := currentImage.value.kind == ByteGray;
      if !detected {
        detected := IsEffectivelyGrayscale(currentImage);
      }
      if detected {
        if imageForGrayscaleToggle.Some? {
          currentImage := DeepCopy(imageForGrayscaleToggle);
        } else {
          PopKeepsWf(undoStack);
          undoStack := PopIfAny(undoStack);
          return;
        }
      } else {
        imageForGrayscaleToggle := DeepCopy(currentImage);
        currentImage := Some(ToGray(currentImage.value));
      }
      ShowAndRebase();
    }

    /** `startCropMode`. */
    method StartCropMode()
      modifies this`isCropping, this`isDrawing, this`isInsertingText, this`isDefiningTextBounds, this`drawSelected
      ensures Flags() == if currentImage.None? then old(Flags()) else FlagsOf(Cropping)
    {
      if currentImage.None? {
        return;
      }
      isCropping := true;
      isDrawing := false;
      drawSelected := false;
      isInsertingText := false;
      isDefiningTextBounds := false;
    }

    /** `startTextInsertionMode`. */
    method StartTextInsertionMode()
      modifies this`isCropping, this`isDrawing, this`isInsertingText, this`isDefiningTextBounds, this`drawSelected
      ensures Flags() == if currentImage.None? then old(Flags()) else FlagsOf(Text(false))
    {
      if currentImage.None? {
        return;
      }
      isInsertingText := true;
      isCropping := false;
      drawSelected := false;
      isDrawing := false;
      isDefiningTextBounds := false;
    }

    /** A click on the draw check box flips it; its action listener then runs. */
    method DrawCheckBoxClicked()
      requires Exclusive(Flags())
      modifies this`isCropping, this`isDrawing, this`isInsertingText, this`isDefiningTextBounds, this`drawSelected
      ensures Exclusive(Flags())
      ensures Flags() == if old(drawSelected) then old(Flags()).(drawSelected := false, drawing := false)
                         else FlagsOf(Drawing(false))
    {
      drawSelected := !drawSelected;
      if drawSelected {
        isCropping := false;
        isInsertingText := false;
        isDefiningTextBounds := false;
      } else {
        isDrawing := false;
      }
    }

    /** `applyCrop`. */
    method ApplyCrop()
      requires WfPictures(Pics())
      modifies this`currentImage, this`brightnessBaseImage, this`imageForGrayscaleToggle,
               this`imageToDisplay, this`undoStack, this`sliderValue,
               this`isCropping, this`cropStartPoint, this`cropEndPoint, this`cropSelection
      ensures Pics() == CropOutcome(old(Pics()), old(cropStartPoint), old(cropEndPoint))
      ensures WfPictures(Pics()) && !isCropping
      ensures old(currentImage).None? || old(cropStartPoint).None? || old(cropEndPoint).None? ==>
                unchanged(this`cropStartPoint, this`cropEndPoint, this`cropSelection)
      ensures old(currentImage).Some? && old(cropStartPoint).Some? && old(cropEndPoint).Some? ==>
                cropStartPoint.None? && cropEndPoint.None? && cropSelection.None?
    {
      if currentImage.None? || cropStartPoint.None? || cropEndPoint.None? {
        isCropping := false;
        return;
      }
      var img := currentImage.value;
      var r := CropArea(cropStartPoint.value, cropEndPoint.value, img.width, img.height);
      if r.width > 0 && r.height > 0 {
        CutTo(r);
      }
      isCropping := false;
      cropSelection := None;
      cropStartPoint := None;
      cropEndPoint := None;
    }

    /** The committed branch of `applyCrop`, for a rectangle already clamped onto the image. */
    method CutTo(r: Rect)
      requires WfPictures(Pics()) && currentImage.Some? && InBounds(r, currentImage.value.width, currentImage.value.height)
      modifies this`currentImage, this`brightnessBaseImage, this`imageForGrayscaleToggle,
               this`imageToDisplay, this`undoStack, this`sliderValue
      ensures Pics() == Cropped(old(Pics()), r)
      ensures WfPictures(Pics())
    {
      PushToUndoStack(currentImage);
      currentImage := Some(SubImage(currentImage.value, r));
      imageForGrayscaleToggle := DeepCopy(currentImage);
      ShowAndRebase();
    }

    /** `performUndo`. */
    method PerformUndo()
      requires WfPictures(Pics())
      modifies this`currentImage, this`brightnessBaseImage, this`imageForGrayscaleToggle,
               this`imageToDisplay, this`undoStack, this`sliderValue
      ensures Pics() == AfterUndo(old(Pics()))
      ensures WfPictures(Pics())
    {
      if |undoStack| > 1 {
        undoStack := undoStack[..|undoStack| - 1];
        assert forall i :: 0 <= i < |undoStack| ==> undoStack[i] == old(undoStack)[i];
        RestoreFrom(undoStack[|undoStack| - 1]);
      } else if |undoStack| == 1 {
        RestoreFrom(undoStack[0]);
      }
    }

    /** The common tail of both branches of `performUndo`. */
    method RestoreFrom(snapshot: Image)
      requires WfPictures(Pics()) && snapshot.Wf()
      modifies this`currentImage, this`brightnessBaseImage, this`imageForGrayscaleToggle,
               this`imageToDisplay, this`undoStack, this`sliderValue
      ensures Pics() == Restored(old(Pics()), DeepCopy(Some(snapshot)))
      ensures WfPictures(Pics())
    {
      currentImage := DeepCopy(Some(snapshot));
      imageToDisplay := currentImage;
      imageForGrayscaleToggle := DeepCopy(currentImage);
      brightnessBaseImage := DeepCopy(currentImage);
      ResetSliderValue();
    }

    /** `insertTextAtPoint`, from the point where the dialog has returned `prompt`;
        `render(text, point)` is the set of pixels the bold 24-point text covers. */
    method InsertTextAtPoint(point: Point, prompt: Prompt, render: (string, Point) -> set<Point>)
      requires WfPictures(Pics())
      modifies this`currentImage, this`brightnessBaseImage, this`imageToDisplay, this`undoStack, this`sliderValue
      ensures Pics() == TextInserted(old(Pics()), point, prompt, render)
      ensures WfPictures(Pics())
    {
      if prompt.Cancelled? {
        return;
      }
      var text := prompt.text;
      if IsBlank(text) || currentImage.None? {
        return;
      }
      PushToUndoStack(currentImage);
      currentImage := Some(Paint(currentImage.value, render(text, point), Palette[prompt.colour]));
      ShowAndRebase();
    }

    // ------------------------------------------------------------ mouse

    /** `mousePressed` at panel point `at` on a panel of extent `panel`. */
    method MousePressed(at: Point, panel: Size)
      requires WfPictures(Pics()) && Exclusive(Flags())
      modifies this`undoStack, this`isCropping, this`isDrawing, this`isInsertingText, this`isDefiningTextBounds,
               this`cropStartPoint, this`cropEndPoint, this`drawStartPoint, this`textBoundsStart,
               this`textBoundsEnd, this`cropSelection, this`textSelection
      ensures WfPictures(Pics()) && Exclusive(Flags())
      ensures Flags() == if currentImage.None? then old(Flags()) else AfterPress(old(Flags()))
      ensures undoStack == if currentImage.Some? && drawSelected then Push(old(undoStack), currentImage) else old(undoStack)
      ensures currentImage.Some? && drawSelected ==>
                drawStartPoint == Some(ImagePoint(at, panel)) &&
                unchanged(this`cropStartPoint, this`cropEndPoint, this`cropSelection,
                          this`textBoundsStart, this`textBoundsEnd, this`textSelection)
      ensures currentImage.Some? && !drawSelected && old(isCropping) ==>
                var q := ImagePoint(at, panel);
                cropStartPoint == Some(q) && cropEndPoint == Some(q) && cropSelection == Some(Rect(q.x, q.y, 0, 0)) &&
                unchanged(this`drawStartPoint, this`textBoundsStart, this`textBoundsEnd, this`textSelection)
      ensures currentImage.Some? && !drawSelected && !old(isCropping) && old(isInsertingText) ==>
                var q := ImagePoint(at, panel);
                textBoundsStart == Some(q) && textBoundsEnd == Some(q) && textSelection == Some(Rect(q.x, q.y, 0, 0)) &&
                unchanged(this`drawStartPoint, this`cropStartPoint, this`cropEndPoint, this`cropSelection)
      ensures currentImage.None? || (!drawSelected && !old(isCropping) && !old(isInsertingText)) ==>
                unchanged(this`drawStartPoint, this`cropStartPoint, this`cropEndPoint, this`cropSelection,
                          this`textBoundsStart, this`textBoundsEnd, this`textSelection)
    {
      if currentImage.None? {
        return;
      }
      var q := ImagePoint(at, panel);
      if drawSelected {
        BeginStroke(q);
      } else if isCropping {
        BeginCropSelection(q);
      } else if isInsertingText {
        BeginTextBounds(q);
      }
    }

    /** The draw branch of `mousePressed`: snapshot the image and start a stroke at `q`. */
    method BeginStroke(q: Point)
      requires WfPictures(Pics()) && currentImage.Some? && drawSelected
      modifies this`undoStack, this`isCropping, this`isDrawing, this`isInsertingText, this`isDefiningTextBounds,
               this`drawStartPoint
      ensures Flags() == AfterPress(old(Flags()))
      ensures undoStack == Push(old(undoStack), currentImage) && WfPictures(Pics())
      ensures drawStartPoint == Some(q)
    {
      isDrawing := true;
      isCropping := false;
      isInsertingText := false;
      isDefiningTextBounds := false;
      PushToUndoStack(currentImage);
      drawStartPoint := Some(q);
    }

    /** The crop branch of `mousePressed`: an empty selection anchored at `q`. */
    method BeginCropSelection(q: Point)
      requires !drawSelected && isCropping
      modifies this`isDrawing, this`isInsertingText, this`isDefiningTextBounds,
               this`cropStartPoint, this`cropEndPoint, this`cropSelection
      ensures Flags() == AfterPress(old(Flags()))
      ensures cropStartPoint == Some(q) && cropEndPoint == Some(q) && cropSelection == Some(Rect(q.x, q.y, 0, 0))
    {
      isDrawing := false;
      isInsertingText := false;
      isDefiningTextBounds := false;
      cropStartPoint := Some(q);
      cropEndPoint := cropStartPoint;
      cropSelection := Some(Rect(q.x, q.y, 0, 0));
    }

    /** The text branch of `mousePressed`: empty text bounds anchored at `q`. */
    method BeginTextBounds(q: Point)
      requires !drawSelected && !isCropping && isInsertingText
      modifies this`isDefiningTextBounds, this`textBoundsStart, this`textBoundsEnd, this`textSelection
      ensures Flags() == AfterPress(old(Flags()))
      ensures textBoundsStart == Some(q) && textBoundsEnd == Some(q) && textSelection == Some(Rect(q.x, q.y, 0, 0))
    {
      isDefiningTextBounds := true;
      textBoundsStart := Some(q);
      textBoundsEnd := textBoundsStart;
      textSelection := Some(Rect(q.x, q.y, 0, 0));
    }

    /** `mouseDragged`; `stroke(from, to)` is the set of pixels the 3-pixel red line covers. */
    method MouseDragged(at: Point, panel: Size, stroke: (Point, Point) -> set<Point>)
      requires WfPictures(Pics())
      modifies this`currentImage, this`imageToDisplay, this`drawStartPoint,
               this`cropEndPoint, this`cropSelection, this`textBoundsEnd, this`textSelection
      ensures WfPictures(Pics())
      ensures Pics() == if old(currentImage).Some? && isDrawing && old(drawStartPoint).Some? then
                          var drawn := Some(Paint(old(currentImage).value,
                                                  stroke(old(drawStartPoint).value, old(ImagePoint(at, panel))), Red));
                          old(Pics()).(current := drawn, displayed := drawn)
                        else old(Pics())
      ensures old(currentImage).Some? && isDrawing && old(drawStartPoint).Some? ==>
                drawStartPoint == Some(old(ImagePoint(at, panel))) &&
                unchanged(this`cropEndPoint, this`cropSelection, this`textBoundsEnd, this`textSelection)
      ensures old(currentImage).Some? && !(isDrawing && old(drawStartPoint).Some?) && isCropping && cropStartPoint.Some? ==>
                var q := ImagePoint(at, panel);
                cropEndPoint == Some(q) && cropSelection == Some(Span(cropStartPoint.value, q)) &&
                unchanged(this`drawStartPoint, this`textBoundsEnd, this`textSelection)
      ensures old(currentImage).Some? && !(isDrawing && old(drawStartPoint).Some?) &&
              !(isCropping && cropStartPoint.Some?) && isDefiningTextBounds && textBoundsStart.Some? ==>
                var q := ImagePoint(at, panel);
                textBoundsEnd == Some(q) && textSelection == Some(Span(textBoundsStart.value, q)) &&
                unchanged(this`drawStartPoint, this`cropEndPoint, this`cropSelection)
      ensures old(currentImage).None? ||
              (!(isDrawing && old(drawStartPoint).Some?) && !(isCropping && cropStartPoint.Some?) &&
               !(isDefiningTextBounds && textBoundsStart.Some?)) ==>
                unchanged(this`drawStartPoint, this`cropEndPoint, this`cropSelection, this`textBoundsEnd, this`textSelection)
    {
      if currentImage.None? {
        return;
      }
      var q := ImagePoint(at, panel);
      if isDrawing && drawStartPoint.Some? {
        currentImage := Some(Paint(currentImage.value, stroke(drawStartPoint.value, q), Red));
        imageToDisplay := currentImage;
        drawStartPoint := Some(q);
      } else if isCropping && cropStartPoint.Some? {
        cropEndPoint := Some(q);
        cropSelection := Some(Span(cropStartPoint.value, q));
      } else if isDefiningTextBounds && textBoundsStart.Some? {
        textBoundsEnd := Some(q);
        textSelection := Some(Span(textBoundsStart.value, q));
      }
    }

    /** `mouseReleased`; `prompt` is what the text dialog returns if it is opened. */
    method MouseReleased(at: Point, panel: Size, prompt: Prompt, render: (string, Point) -> set<Point>)
      requires WfPictures(Pics()) && Exclusive(Flags())
      modifies this`currentImage, this`brightnessBaseImage, this`imageForGrayscaleToggle,
               this`imageToDisplay, this`undoStack, this`sliderValue,
               this`isCropping, this`isDrawing, this`isInsertingText, this`isDefiningTextBounds,
               this`cropStartPoint, this`cropEndPoint, this`drawStartPoint, this`textBoundsStart,
               this`textBoundsEnd, this`cropSelection, this`textSelection
      ensures WfPictures(Pics()) && Exclusive(Flags())
      ensures var cropFires := old(isCropping) && old(currentImage).Some? && old(cropStartPoint).Some?;
              var textFires := old(isDefiningTextBounds) && old(textBoundsStart).Some?;
              Flags() == AfterRelease(old(Flags()), cropFires, textFires)
      ensures old(isDrawing) ==>
                Pics() == old(Pics()).(base := DeepCopy(old(currentImage))) && drawStartPoint.None? &&
                unchanged(this`cropStartPoint, this`cropEndPoint, this`cropSelection,
                          this`textBoundsStart, this`textBoundsEnd, this`textSelection)
      ensures !old(isDrawing) && old(isCropping) && old(currentImage).Some? && old(cropStartPoint).Some? ==>
                Pics() == CropOutcome(old(Pics()), old(cropStartPoint), Some(old(ImagePoint(at, panel)))) &&
                cropStartPoint.None? && cropEndPoint.None? && cropSelection.None? &&
                unchanged(this`drawStartPoint, this`textBoundsStart, this`textBoundsEnd, this`textSelection)
      ensures !old(isDrawing) && !(old(isCropping) && old(currentImage).Some? && old(cropStartPoint).Some?) &&
              old(isDefiningTextBounds) && old(textBoundsStart).Some? ==>
                Pics() == TextInserted(old(Pics()), TextAnchor(old(textSelection), old(textBoundsStart).value), prompt, render) &&
                textBoundsStart.None? && textBoundsEnd.None? && textSelection.None? &&
                unchanged(this`drawStartPoint, this`cropStartPoint, this`cropEndPoint, this`cropSelection)
      ensures !old(isDrawing) && !(old(isCropping) && old(currentImage).Some? && old(cropStartPoint).Some?) &&
              !(old(isDefiningTextBounds) && old(textBoundsStart).Some?) ==>
                Pics() == old(Pics()) &&
                unchanged(this`drawStartPoint, this`cropStartPoint, this`cropEndPoint, this`cropSelection,
                          this`textBoundsStart, this`textBoundsEnd, this`textSelection)
    {
      if isDrawing {
        FinishStroke();
      } else if isCropping && currentImage.Some? && cropStartPoint.Some? {
        FinishCropSelection(ImagePoint(at, panel));
      } else if isDefiningTextBounds && textBoundsStart.Some? {
        FinishTextBounds(prompt, render);
      }
    }

    /** The draw branch of `mouseReleased`: the stroke ends and the drawn image becomes the
        brightness base. */
    method FinishStroke()
      requires WfPictures(Pics()) && isDrawing
      modifies this`isDrawing, this`brightnessBaseImage, this`drawStartPoint
      ensures Flags() == AfterRelease(old(Flags()), false, false)
      ensures Pics() == old(Pics()).(base := DeepCopy(currentImage)) && WfPictures(Pics())
      ensures drawStartPoint.None?
    {
      isDrawing := false;
      brightnessBaseImage := DeepCopy(currentImage);
      drawStartPoint := None;
    }

    /** The crop branch of `mouseReleased`: the selection ends at `q` and the crop is applied. */
    method FinishCropSelection(q: Point)
      requires WfPictures(Pics()) && !isDrawing && isCropping && currentImage.Some? && cropStartPoint.Some?
      modifies this`currentImage, this`brightnessBaseImage, this`imageForGrayscaleToggle,
               this`imageToDisplay, this`undoStack, this`sliderValue,
               this`isCropping, this`cropStartPoint, this`cropEndPoint, this`cropSelection
      ensures Pics() == CropOutcome(old(Pics()), old(cropStartPoint), Some(q))
      ensures Flags() == AfterRelease(old(Flags()), true, false) && WfPictures(Pics())
      ensures cropStartPoint.None? && cropEndPoint.None? && cropSelection.None?
    {
      cropEndPoint := Some(q);
      ApplyCrop();
    }

    /** The text branch of `mouseReleased`: text mode ends and the text goes in at the anchor
        of the selection. */
    method FinishTextBounds(prompt: Prompt, render: (string, Point) -> set<Point>)
      requires WfPictures(Pics()) && isDefiningTextBounds && textBoundsStart.Some?
      modifies this`currentImage, this`brightnessBaseImage, this`imageToDisplay, this`undoStack, this`sliderValue,
               this`isInsertingText, this`isDefiningTextBounds, this`textBoundsStart, this`textBoundsEnd,
               this`textSelection
      ensures Pics() == TextInserted(old(Pics()), TextAnchor(old(textSelection), old(textBoundsStart).value), prompt, render)
      ensures !isInsertingText && !isDefiningTextBounds && WfPictures(Pics())
      ensures textBoundsStart.None? && textBoundsEnd.None? && textSelection.None?
    {
      isDefiningTextBounds := false;
      isInsertingText := false;
      var anchor := TextAnchor(textSelection, textBoundsStart.value);
      textSelection := None;
      InsertTextAtPoint(anchor, prompt, render);
      textBoundsStart := None;
      textBoundsEnd := None;
    }
  }
}
