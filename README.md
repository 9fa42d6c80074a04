# MiniPhoto editing engine in Dafny

A model of the editing engine of MiniPhoto, a small Swing image editor. It covers:
- the image slots of the editor window: the current image, the brightness base, the colour backup for the grayscale toggle, the originally loaded image and the image the panel shows;
- the undo stack of deep-copied snapshots;
- the brightness slider;
- the five mode flags for crop, draw and text;
- the handlers that drive all of these: the toolbar commands, the slider and check-box listeners, and the mouse press, drag and release handlers.

Images are values: `Images.Image` holds a width, a height, an image type and rows of RGBA pixels. A `BufferedImage` that may be null is an `Option<Image>`, and value semantics stand in for `deepCopy`.

The files:
- `images.dfy`: pixels, images and `deepCopy`.
- `geometry.dfy`: points and rectangles, and the crop-rectangle arithmetic. It also holds the panel-to-image coordinate conversion and the fit-to-viewport extent.
- `effects.dfy`: `clamp`, the manual brightness loop (over an `array2`, as the source rewrites pixels in place), the corner-block grayscale test (a nested search loop), and the pixel-producing stand-ins for grayscale conversion, painting, sub-images and resampling.
- `history.dfy`: `pushToUndoStack`, the rollback pop, and `performUndo` both as written and corrected.
- `editor.dfy`: the session.
  - Every handler's effect on the image slots is a function over the `Pictures` record, with lemmas about what it promises.
  - The flag transitions are functions over the `Modes` record.
  - The class `Editor.MiniPhoto` has the fields of the Java class. Each of its methods is proved to change those fields exactly as the matching function says, and to change no other field.

`brightnessSlider.setValue(0)` fires the slider's change listener with a final value whenever the value actually changes. Opening an image, the grayscale toggle, a committed crop, a text insertion and an undo all end with that call. Each of these, made with the slider off 0, commits a brightness change as well, and `ResetSlider` models that second commit. Its effects are spelled out: an extra snapshot on the undo stack, with the image slots unchanged (`Editor.ResetSliderDuplicates`). A free-hand stroke never resets the slider and keeps its value.

## Model

| member | source | states |
|---|---|---|
| Images.DeepCopy | MiniPhoto/src/MiniPhoto.java:693-708 | no copy of a null image or of one with an empty extent; otherwise the copy has the same extent and pixels, `TYPE_CUSTOM` becomes `TYPE_INT_ARGB` and every other type is kept (palette types: see "Left out") |
| Images.DeepCopyIdempotent | MiniPhoto/src/MiniPhoto.java:693-708 | copying a copy gives the same copy |
| Geometry.Span | MiniPhoto/src/MiniPhoto.java:612-615 | the spanned rectangle has a non-negative extent; on each axis its corner is one of the two points and its far edge is the other |
| Geometry.ClampRect | MiniPhoto/src/MiniPhoto.java:618-621 | a negative corner moves to 0, an extent running past the right or bottom edge is cut back to it, the result never leaves the image and never grows |
| Geometry.Half | MiniPhoto/src/MiniPhoto.java:762-763 | Java's `/ 2` rounds toward zero, for negative panel slack as well |
| Geometry.PanelToImage | MiniPhoto/src/MiniPhoto.java:758-770 | with no image shown, or one with an empty extent, the point passes through; otherwise the result lies in [0, W-1] x [0, H-1] |
| Geometry.PanelToImageOfDrawnPixel | MiniPhoto/src/MiniPhoto.java:762-769 | the panel position where pixel (i, j) of the centred image is drawn converts back to (i, j) |
| Geometry.PanelToImageOutside | MiniPhoto/src/MiniPhoto.java:767-768 | points left of or above the image go to column or row 0, points right of or below it to the last column or row |
| Geometry.FitSize | MiniPhoto/src/MiniPhoto.java:448-450 | the scaled extent never exceeds the image or the viewport, and an image that fits keeps its extent |
| Geometry.FitExtent | MiniPhoto/src/MiniPhoto.java:449-450 | the truncated scaled extent lies within both the source extent and the viewport extent; a scale of 1 keeps it |
| Effects.Clamp | MiniPhoto/src/MiniPhoto.java:271-273 | the result is in [0, 255]; in-range values are kept, values below 0 give 0 and values above 255 give 255 |
| Effects.TruncDiv | MiniPhoto/src/MiniPhoto.java:298-300 | the `(int)` cast rounds the quotient toward zero on both signs |
| Effects.BrightenChannel | MiniPhoto/src/MiniPhoto.java:282-300 | the channel rule with scale 1 + f and offset 25f (brightening) or 50f (darkening); factor 0 keeps the channel |
| Effects.BrightenChannelDirection | MiniPhoto/src/MiniPhoto.java:282-300 | a positive slider value never darkens a channel, and a value in [-100, 0] never brightens it |
| Effects.BrightenChannelMonotone | MiniPhoto/src/MiniPhoto.java:282-300 | for factors in [-1, 1] the rule keeps the order of channel values |
| Effects.BrightenPixel | MiniPhoto/src/MiniPhoto.java:297-301 | alpha is kept; factor 0 keeps the pixel |
| Effects.Brighten | MiniPhoto/src/MiniPhoto.java:295-303 | same extent and type, and every pixel follows the per-pixel rule |
| Effects.BrightenZero | MiniPhoto/src/MiniPhoto.java:282-303 | factor 0 leaves the whole image unchanged |
| Effects.ApplyBrightness | MiniPhoto/src/MiniPhoto.java:295-303 | the in-place nested loop rewrites every buffer cell by the rule applied to its old value |
| Effects.BrightenImage | MiniPhoto/src/MiniPhoto.java:280-305 | running the loop on the image's raster gives exactly `Brighten` |
| Effects.IsEffectivelyGrayscale | MiniPhoto/src/MiniPhoto.java:572-583 | true exactly when the image is `TYPE_BYTE_GRAY` or every pixel of the min(10, W) x min(10, H) corner block has R = G = B; false for null |
| Effects.SampleIgnoresOutside | MiniPhoto/src/MiniPhoto.java:576-581 | two images of one type that agree on the corner block get the same answer |
| Effects.SampleMissesColourOutsideBlock | MiniPhoto/src/MiniPhoto.java:576-581 | an 11 x 1 image whose only red pixel is in column 10 reads as gray |
| Effects.GrayPixel | MiniPhoto/src/MiniPhoto.java:554-560 | the converted pixel is gray and opaque |
| Effects.ToGray | MiniPhoto/src/MiniPhoto.java:554-561 | the conversion has the same extent, is `TYPE_BYTE_GRAY`, and every pixel is gray |
| Effects.Paint | MiniPhoto/src/MiniPhoto.java:351-360 | same extent and type; covered pixels take the colour (as a gray raster stores it) and all others are kept |
| Effects.SubImage | MiniPhoto/src/MiniPhoto.java:626 | the sub-image has the rectangle's extent and the source's type, and its pixel (x, y) is the source pixel at (r.x + x, r.y + y) |
| Effects.ScaledIndex | MiniPhoto/src/MiniPhoto.java:455-458 | every resampled position reads a source position inside the source |
| Effects.ScaledIndexIdentity | MiniPhoto/src/MiniPhoto.java:455-458 | resampling onto the same extent reads each position from itself |
| Effects.Resample | MiniPhoto/src/MiniPhoto.java:455-459 | the new raster has the requested extent and is `TYPE_INT_ARGB` |
| Effects.ResampleSameExtent | MiniPhoto/src/MiniPhoto.java:455-459 | resampling onto the image's own extent keeps every pixel |
| History.Push | MiniPhoto/src/MiniPhoto.java:713-722 | a copyable image grows the stack by exactly one and its copy is the new top, with the entries below unchanged; a null image or an empty extent leaves the stack as it was |
| History.PopIfAny | MiniPhoto/src/MiniPhoto.java:548 | the rollback removes the top of a non-empty stack and leaves an empty one empty |
| History.PopUndoesPush | MiniPhoto/src/MiniPhoto.java:539-549 | a push followed by the rollback gives back the original stack |
| History.Undo | MiniPhoto/src/MiniPhoto.java:655-686 | depth > 1: pop and restore a copy of the new top; depth 1: keep the floor and restore a copy of it; empty: nothing |
| History.UndoSkipsLatestSnapshot | MiniPhoto/src/MiniPhoto.java:656-664 | undo right after an edit restores the snapshot beneath the one that edit pushed |
| History.UndoAfterTwoEditsRestoresOriginal | MiniPhoto/src/MiniPhoto.java:656-664 | after opening a and making two edits (a then b pushed), one undo restores a, not b |
| History.AsWrittenReachesFloor | MiniPhoto/src/MiniPhoto.java:655-686 | as written, after opening f and N >= 2 edits (history [f, f] + rest, where rest has N - 1 entries), N - 1 undos reach [f, f] and restore f, and every further undo restores f on the floor [f] |
| History.AsWrittenFloorIsFixed | MiniPhoto/src/MiniPhoto.java:656-677 | as written, undos from [f, f] drop to the floor [f], and from then on every undo keeps the stack and restores f |
| History.IntendedUndo | MiniPhoto/src/MiniPhoto.java:656-677 | depth > 1: pop and restore a copy of the popped snapshot; the floor and the empty stack behave as in `Undo` |
| History.IntendedUndoRestoresSnapshot | MiniPhoto/src/MiniPhoto.java:656-664 | the corrected undo inverts a push: it restores the pushed snapshot and leaves the earlier stack |
| History.UndoReachesFloor | MiniPhoto/src/MiniPhoto.java:655-677 | k corrected undos after k edits give back the floor-only stack and the first snapshot; further undos keep restoring the floor |
| History.FloorIsFixed | MiniPhoto/src/MiniPhoto.java:669-677 | on the floor every undo restores the floor and keeps the stack |
| Editor.Commit | MiniPhoto/src/MiniPhoto.java:140-151 | a committed slider change keeps the backup, the original and the slider value, and keeps every slot well-formed |
| Editor.Preview | MiniPhoto/src/MiniPhoto.java:135-153 | a live drag changes only the displayed image: current, base, backup, original, stack and slider all stay as they were; with an image and a base, the panel shows a copy of the base brightened by the slider's factor |
| Editor.PreviewMatchesCommit | MiniPhoto/src/MiniPhoto.java:135-150 | what a live drag shows is exactly the image the commit at the same value makes current |
| Editor.ResetSlider | MiniPhoto/src/MiniPhoto.java:130-152 | the slider ends at 0, and a slider already at 0 fires nothing |
| Editor.CommitRebases | MiniPhoto/src/MiniPhoto.java:140-151 | a commit pushes exactly one snapshot (the old current), makes current the base brightened by value / 100, and makes base a copy of the new current |
| Editor.PreviewNotPersisted | MiniPhoto/src/MiniPhoto.java:135-151 | a commit after any preview is the commit without it |
| Editor.CommitsCompose | MiniPhoto/src/MiniPhoto.java:140-151 | two commits in a row compose: the second brightens the result of the first |
| Editor.ResetSliderDuplicates | MiniPhoto/src/MiniPhoto.java:130-151 | after an edit that re-based on the current image, resetting a non-zero slider adds a second snapshot of it and changes no image slot |
| Editor.Toggled | MiniPhoto/src/MiniPhoto.java:534-567 | with no image nothing changes; the slots stay well-formed |
| Editor.ToggleWithoutBackupIsNoop | MiniPhoto/src/MiniPhoto.java:539-549 | a gray image (by type or sampling) with no backup leaves the whole state unchanged, the stack at its pre-call depth included |
| Editor.ToggleRestoresBackup | MiniPhoto/src/MiniPhoto.java:539-545 | at slider 0, a gray image (by type or sampling) with a backup pushes exactly one snapshot of the gray image; the backup becomes current, shown and base, and is itself kept |
| Editor.ToggleColourImage | MiniPhoto/src/MiniPhoto.java:551-566 | converting a colour image makes the old current the backup, makes the new current its gray conversion of the same extent, and pushes exactly one snapshot |
| Editor.ToggleRoundTrip | MiniPhoto/src/MiniPhoto.java:541-566 | toggling a colour image twice restores it pixel for pixel, two snapshots deeper |
| Editor.CropArea | MiniPhoto/src/MiniPhoto.java:612-621 | a clamped rectangle that covers a pixel lies inside the image |
| Editor.Cropped | MiniPhoto/src/MiniPhoto.java:623-630 | the committed crop keeps every slot well-formed |
| Editor.CropCommits | MiniPhoto/src/MiniPhoto.java:623-630 | the cut is the current image with the rectangle's extent; with the slider at 0 exactly one snapshot (the image before the crop) is pushed and base and backup are copies of the cut |
| Editor.CropClampsToImage | MiniPhoto/src/MiniPhoto.java:612-621 | with the corner on the image, the cut is exactly min(requested, available) wide and high |
| Editor.CropOutcome | MiniPhoto/src/MiniPhoto.java:605-643 | every outcome of `applyCrop` keeps the slots well-formed |
| Editor.CropOutcomeCases | MiniPhoto/src/MiniPhoto.java:612-630 | a selection that clamps to no pixel changes nothing; otherwise, at slider 0, exactly one push, and current, base and backup are the W' x H' cut |
| Editor.AfterUndo | MiniPhoto/src/MiniPhoto.java:655-686 | on an empty stack nothing changes; the slots stay well-formed |
| Editor.UndoRestores | MiniPhoto/src/MiniPhoto.java:656-677 | depth > 1: the stack drops by one, and current, shown, base and backup all equal the new top; depth 1: the stack is kept and current is reset to the floor |
| Editor.IntendedAfterUndo | MiniPhoto/src/MiniPhoto.java:655-686 | the corrected undo on the slots: nothing on an empty stack; the slots stay well-formed |
| Editor.IntendedUndoRevertsEdit | MiniPhoto/src/MiniPhoto.java:656-664 | the corrected undo of an edit restores the image from before it as current, base and backup, and restores the history from before it |
| Editor.TrimEmptyIffBlank | MiniPhoto/src/MiniPhoto.java:349 | `text.trim().isEmpty()` holds exactly when every character is at most U+0020 |
| Editor.TextAnchor | MiniPhoto/src/MiniPhoto.java:206-210 | text goes at the selection's top-left corner when the selection has a positive area, and otherwise at the press point |
| Editor.TextInserted | MiniPhoto/src/MiniPhoto.java:347-372 | a cancelled dialog, blank text or no image changes nothing (in particular no push) |
| Editor.TextInsertCommits | MiniPhoto/src/MiniPhoto.java:349-365 | non-blank text on an image at slider 0 is one undoable edit: one snapshot of the image before it, the painted image as current and shown, and its copy as base |
| Editor.FitToViewport | MiniPhoto/src/MiniPhoto.java:448-459 | the fitted image is non-empty, no larger than the source and not `TYPE_CUSTOM`; it fits the viewport unless it is a pixel copy of the source; an image that already fits keeps its pixels |
| Editor.ResizedToFit | MiniPhoto/src/MiniPhoto.java:420-467 | a resize never touches the original, the stack, the base or the slider |
| Editor.ResizeFits | MiniPhoto/src/MiniPhoto.java:432-467 | a non-empty image in a viewport with an extent becomes a non-empty, shown current image no larger than it; the backup is its copy unless the call is for undo or toggle |
| Editor.Opened | MiniPhoto/src/MiniPhoto.java:386-400 | a file that does not decode changes nothing |
| Editor.OpenedStartsHistory | MiniPhoto/src/MiniPhoto.java:392-400 | after opening, the stack is exactly one floor snapshot of the fitted image (two if the slider was off 0), and base and backup are that image |
| Editor.ModesEncodeOneMode | MiniPhoto/src/MiniPhoto.java:162-183 | consistent flags are exactly the encodings of one tagged mode (idle, crop, draw, text) |
| Editor.AfterPress | MiniPhoto/src/MiniPhoto.java:162-183 | a press keeps the flags consistent; draw has priority over crop and crop over text; draw starts a stroke and leaves crop and text; text starts defining bounds |
| Editor.AfterRelease | MiniPhoto/src/MiniPhoto.java:188-212 | a release keeps the flags consistent and always ends a stroke; a crop that fires leaves crop mode; text bounds that fire leave text mode |
| Editor.GesturesReturnToRest | MiniPhoto/src/MiniPhoto.java:159-212 | press then release returns draw mode to selected-and-idle, and crop or text mode to no mode at all |
| Editor.MiniPhoto.constructor | MiniPhoto/src/MiniPhoto.java:28-56 | a fresh editor has no images, an empty stack, the slider at 0 and every flag and point cleared |
| Editor.MiniPhoto.BrightnessChanged | MiniPhoto/src/MiniPhoto.java:130-152 | the listener's new slot state is `Preview` of the old state while adjusting and `Commit` of it otherwise |
| Editor.MiniPhoto.SliderMoved | MiniPhoto/src/MiniPhoto.java:130-152 | moving the slider to a value in [-100, 100] previews or commits with that value |
| Editor.MiniPhoto.ResetSliderValue | MiniPhoto/src/MiniPhoto.java:566 | `setValue(0)` leaves the state `ResetSlider` describes |
| Editor.MiniPhoto.PushToUndoStack | MiniPhoto/src/MiniPhoto.java:713-722 | the stack becomes `Push` of the old stack and nothing else changes |
| Editor.MiniPhoto.ShowAndRebase | MiniPhoto/src/MiniPhoto.java:564-566 | show the current image, make its copy the base, reset the slider |
| Editor.MiniPhoto.OpenImage | MiniPhoto/src/MiniPhoto.java:386-400 | the new slot state is `Opened` of the old one |
| Editor.MiniPhoto.ResizeImageToFitPanel | MiniPhoto/src/MiniPhoto.java:420-467 | the new slot state is `ResizedToFit` of the old one; base, stack and original are not in its frame |
| Editor.MiniPhoto.ToggleGrayscale | MiniPhoto/src/MiniPhoto.java:534-567 | the new slot state is `Toggled` of the old one |
| Editor.MiniPhoto.StartCropMode | MiniPhoto/src/MiniPhoto.java:588-600 | with an image, the flags become crop mode only; without one they are kept |
| Editor.MiniPhoto.StartTextInsertionMode | MiniPhoto/src/MiniPhoto.java:310-322 | with an image, the flags become text mode (not yet defining bounds); without one they are kept |
| Editor.MiniPhoto.DrawCheckBoxClicked | MiniPhoto/src/MiniPhoto.java:116-128 | selecting leaves crop and text mode for draw mode; deselecting ends any stroke; the flags stay consistent |
| Editor.MiniPhoto.ApplyCrop | MiniPhoto/src/MiniPhoto.java:605-650 | the slots become `CropOutcome` of the old state; the crop flag is always cleared, and with an image and both corners the corners and the selection are cleared too |
| Editor.MiniPhoto.CutTo | MiniPhoto/src/MiniPhoto.java:623-630 | the slots become `Cropped` of the old state |
| Editor.MiniPhoto.PerformUndo | MiniPhoto/src/MiniPhoto.java:655-686 | the slots become `AfterUndo` of the old state |
| Editor.MiniPhoto.RestoreFrom | MiniPhoto/src/MiniPhoto.java:660-664 | the restored copy becomes current, shown, backup and base, and the slider is reset |
| Editor.MiniPhoto.InsertTextAtPoint | MiniPhoto/src/MiniPhoto.java:347-372 | the slots become `TextInserted` of the old state |
| Editor.MiniPhoto.MousePressed | MiniPhoto/src/MiniPhoto.java:159-184 | flags become `AfterPress`; in draw mode exactly one push and the stroke start is set; in crop or text mode an empty selection is anchored at the converted point; every other point is kept |
| Editor.MiniPhoto.BeginStroke | MiniPhoto/src/MiniPhoto.java:162-168 | one push, the draw flags, and the stroke start at the point |
| Editor.MiniPhoto.BeginCropSelection | MiniPhoto/src/MiniPhoto.java:169-176 | both crop corners at the point and an empty selection there |
| Editor.MiniPhoto.BeginTextBounds | MiniPhoto/src/MiniPhoto.java:177-183 | both text corners at the point, an empty selection there, and text bounds being defined |
| Editor.MiniPhoto.MouseDragged | MiniPhoto/src/MiniPhoto.java:219-248 | a stroke paints the covered pixels red and advances the stroke start, with no push; a crop or text drag only moves the far corner and the spanned selection |
| Editor.MiniPhoto.MouseReleased | MiniPhoto/src/MiniPhoto.java:187-214 | flags become `AfterRelease`; a stroke ends with the base a copy of current; a crop fires `CropOutcome` at the converted point; text bounds insert at `TextAnchor` and clear the text points |
| Editor.MiniPhoto.FinishStroke | MiniPhoto/src/MiniPhoto.java:188-193 | the stroke ends, base becomes a copy of current, and the stroke start is cleared |
| Editor.MiniPhoto.FinishCropSelection | MiniPhoto/src/MiniPhoto.java:194-196 | the far corner is the release point, then the crop is applied |
| Editor.MiniPhoto.FinishTextBounds | MiniPhoto/src/MiniPhoto.java:197-212 | both text flags are cleared and the text goes in at the selection's anchor |

## Left out

- Swing and AWT presentation are not modelled: layout, cursors, status-bar strings, `paintComponent`, `repaint`, `revalidate`, look-and-feel, `main` and `invokeLater`.
- File I/O and dialogs become inputs. `openImage` starts from the decoded image, or `None` when `ImageIO.read` gives null. `insertTextAtPoint` starts from the dialog's outcome: cancelled, or a text and a colour index in 0..4. The I/O exception paths and `saveImage` are not modelled.
- Window events become parameters. The viewport extent is a parameter of resizing, and the panel extent a parameter of the coordinate conversion. A missing scroll pane or viewport behaves exactly like a viewport with no extent, so it is not a separate case.
- Rasterisation comes from the caller. `drawLine` with a 3-pixel stroke and the antialiased 24-point bold `drawString` are caller-supplied functions that return the set of covered pixels. Antialiasing blends are not modelled: covered pixels take the colour.
- Images.DeepCopy: copies of palette types (`TYPE_BYTE_INDEXED`, `TYPE_BYTE_BINARY`) are treated as exact. In the source, `new BufferedImage(w, h, type)` with `drawImage` maps each colour to the nearest entry of the default palette. This arises only when a paletted image is copied unscaled: a viewport with no extent, or a scaled extent that truncates to 0. Every other resize produces `TYPE_INT_ARGB`.
- Effects.GrayPixel: the colour conversion of `drawImage` into a `TYPE_BYTE_GRAY` raster is an integer luminance stand-in. Only grayness, same extent and opacity are claimed for it.
- Effects.Resample: `getScaledInstance(..., SCALE_SMOOTH)` is a nearest-neighbour stand-in. Only extent, type and identity at the same extent are claimed for it.
- Effects.BrightenImage: `RescaleOp` is not modelled. The manual fallback rule is used for every image. Java's float rounding of value / 100 and of the product is replaced by exact integer arithmetic with truncation toward zero.
- Geometry.FitSize: the `double` scale is computed with exact reals before truncation, so float rounding of the ratio is not modelled.
- Effects.IsEffectivelyGrayscale: `new Color(getRGB(i, j))` drops alpha, which the test ignores anyway. It works on the model's RGBA pixel directly.
- Editor.MiniPhoto.ApplyCrop: the `RasterFormatException` branch that rolls back the push is not modelled. The rectangle is already clamped onto the image, so `getSubimage` cannot fail there.
- Storage aliasing is not modelled. The sub-image shares storage with the image it was cut from, and drawing on `currentImage` shows through the panel's reference to it. `MouseDragged` sets the displayed image to the drawn one, which matches the source whenever the panel shows `currentImage`.
- The reference comparison `currentImage != initialImage` in the depth-1 branch of `performUndo` is always true under value semantics. Every stack entry is a fresh copy, and so is every image restored from one.
- Integers are unbounded: coordinate and extent arithmetic does not model 32-bit overflow. Image extents are `nat`, because a `BufferedImage` never has a negative extent.
- Editor.TextInserted: with no current image, the source throws on `createGraphics` after pushing nothing. The model treats this as a no-op.
- Editor.Commit, Editor.Toggled, Editor.Cropped, Editor.AfterUndo, Editor.TextInserted, Editor.ResizedToFit: these functions' own ensures state only well-formedness and the unchanged slots. What each edit promises is stated by the lemmas beside it, most of them for the slider at 0. With the slider off 0 the extra commit of `ResetSlider` applies; `ResetSliderDuplicates` covers it for re-based images.
- "Nothing else changes" for the class's methods comes from their field-level `modifies` frames: every field outside the frame is unchanged.

## Findings

| source | as written | input that shows it | evidently intended | confidence | as-written member | corrected member |
|---|---|---|---|---|---|---|
| MiniPhoto/src/MiniPhoto.java:656-664 | with depth > 1, `performUndo` pops the top snapshot, which is the image from before the latest edit, then restores the entry now on top, from before the edit before it. The skip costs exactly one step: the first undo reverts two edits, and after N edits N - 1 undos reach the floor | with the slider at 0, open image a, then make two edits, the second starting from b: the stack is [a, a, b] and one undo restores a (off 0, the slider reset pushes a second snapshot of each edit's result, which masks the skip) | undo restores the popped snapshot, so each undo reverts exactly one edit | not executed | History.UndoAfterTwoEditsRestoresOriginal | Editor.IntendedUndoRevertsEdit |
