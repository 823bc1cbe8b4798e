# Watermark_APP core in Dafny

Watermark_APP is a desktop tool that stamps a text watermark onto photos. The
user imports images (single files or whole folders), picks a text, font, colour
and opacity, places the watermark on a preview (freely or on a nine-position
grid), saves the settings as named templates, and exports the stamped image to
an output folder without overwriting anything there.

This project models the logic the application owns itself, around the windowing
toolkit and the imaging library:

- `Base`: sizes, points, normalised anchors, optional values and Python's
  `int()` on a float (truncation toward zero).
- `PathText`: the string side of POSIX paths the core relies on: `rfind`,
  ASCII `lower()`, `os.path.splitext`, `os.path.basename`, pathlib's `name`,
  `stem`, `suffix` and `parent`, `os.path.join`, and `str()` of a counter.
- `ImageIo`: the supported-extension filter `is_image_file`.
- `OutputNaming`: collision-free destination names. The file system is the
  finite set of paths that exist when the name is chosen. The probe loop of
  `ensure_output_path` and the one inside the window's export handler are the
  same loop; both use `FreshName`.
- `Exporter`: `compose_watermark_on_image` for a source of a given decoded
  size. It covers the output size, where the watermark's centre and top-left
  corner go, the full-size overlay the watermark is pasted into (an `array2`
  filled in place), the encoder choice and the returned path.
- `Watermark`: `create_text_watermark_image` as a render plan for a measured
  ink box. The plan holds the font choice, canvas size, text origin, the
  optional shadow pass and the fill colours.
- `BatchWorker`: `batch_export` and its per-task `worker`. The thread pool is
  replaced by the order in which tasks complete, any permutation of the task
  indices.
- `ExportThread`: the export thread's `run`, as the log of signals it emits.
- `TemplateManager`: the template store as a class. Its fields are the
  template map, the last-used name and the content of the template file
  (`None` while there is no file).
- `MainWindow`: the window's own state and handlers. These are import with
  de-duplication, selecting an image, showing the preview, the nine-position
  grid, the output folder, the default-template guard on deletion, and the
  preparation of an export task.

Where the imaging library or the toolkit computes a value (a decoded image
size, a preview pixmap size, a text's ink box, a directory walk, an absolute
path), that value is a parameter of the model.

## Model

| member | source | states |
|---|---|---|
| Base.Trunc | core/exporter.py:30-31 | `int()` of a float: for a non-negative value the result is its whole part (`t <= r < t + 1`); for a negative one it is rounded toward zero |
| PathText.LastIndex | main.py:96 | `str.rfind`: -1 when the character does not occur, otherwise the index of its last occurrence |
| PathText.Lower | core/image_io.py:8 | lower-casing keeps the length and maps every character on its own: ASCII capitals become small letters, everything else is kept |
| PathText.SplitExt | core/image_io.py:8 | `splitext` returns a root and an extension that concatenate back to the path |
| PathText.SplitExtSound | core/image_io.py:8 | the extension is empty, or it is a dot followed by no dot or separator and comes after a root whose last component has a non-dot character |
| PathText.SplitExtOf | core/image_io.py:8 | converse: a root with such a stem followed by a proper extension splits exactly between the two |
| PathText.Name | main.py:96 | the base name of a path has no separator and is the tail of the path, starting at the beginning or just after the last separator |
| PathText.Suffix | core/batch_worker.py:12 | pathlib's `suffix`: the name from its last dot on when that dot is neither the first nor the last character of the name, otherwise empty |
| PathText.Stem | core/batch_worker.py:9-11 | pathlib's `stem`: the name without that suffix |
| PathText.Parent | main.py:916 | `str(Path(p).parent)`: the text before the last separator, "/" when that separator is the first character, "." when there is none; in the first case the parent, a separator and the name rebuild the path |
| PathText.Join | core/batch_worker.py:13 | `os.path.join` and pathlib's `/`: an absolute second part replaces the first; otherwise a separator is put between them unless the first is empty or already ends in one |
| PathText.StemSuffixSplitName | core/batch_worker.py:7-12 | stem and suffix together are the file name; the suffix is non-empty exactly when the name's last dot is neither its first nor its last character, and then it is a dot, at least one more character and no further dot, after a non-empty stem |
| PathText.JoinEndsWith | core/batch_worker.py:13 | a path joined under a directory ends with the joined name |
| PathText.JoinInjective | core/batch_worker.py:17 | two relative names joined under the same directory give the same path only when they are the same name |
| PathText.DecimalString | core/batch_worker.py:17 | the decimal text of a counter is non-empty and has one digit exactly for numbers below ten |
| PathText.DecimalStringInjective | core/batch_worker.py:17 | different counters are written as different texts |
| ImageIo.IsImageFile | core/image_io.py:5-9 | `is_image_file`: the `splitext` extension of the lower-cased path is one of ".jpg", ".jpeg", ".png", ".bmp", ".tif" and ".tiff" |
| ImageIo.SupportedAreExtensions | core/image_io.py:5 | every supported extension is lower case and a proper `splitext` extension |
| ImageIo.ImageFileHasSupportedExtension | core/image_io.py:7-9 | an accepted path, lower-cased, is a root with a stem followed by one of the six supported extensions |
| ImageIo.SupportedExtensionIsImageFile | core/image_io.py:7-9 | converse: every such path is accepted |
| ImageIo.IsImageFileCaseInsensitive | core/image_io.py:8 | a path is accepted exactly when its lower-cased form is |
| ImageIo.LastExtensionCounts | core/image_io.py:7-9 | a supported extension in any case, appended to a name with a stem, is accepted whatever the name ended in before |
| ImageIo.NoExtensionNoImage | core/image_io.py:7-9 | a path whose last component has no dot after a non-dot character (no dot, only leading dots, or a dot only in a directory) is rejected |
| ImageIo.UpperCaseAccepted | core/image_io.py:8 | "A.PNG" is accepted |
| ImageIo.LastExtensionAccepted | core/image_io.py:8-9 | "x.txt.png" is accepted |
| ImageIo.EarlierExtensionRejected | core/image_io.py:8-9 | "x.png.txt" is rejected |
| ImageIo.LeadingDotRejected | core/image_io.py:8-9 | ".png" is rejected |
| ImageIo.DirectoryDotRejected | core/image_io.py:8-9 | "a.png/b" is rejected |
| ImageIo.FolderNameAccepted | core/image_io.py:7-9 | "photos/2023.jpg" is accepted: the filter sees only the name, whether or not it names a folder |
| OutputNaming.Candidate | core/batch_worker.py:12-17 | the name probed at step `i` in the output folder: `{base}{ext}` at step 0, `{base}_{i}{ext}` after |
| OutputNaming.CandidateKeepsExtension | core/batch_worker.py:12-17 | every candidate name, plain or numbered, ends in the given extension |
| OutputNaming.NumberedCandidatesDistinct | core/batch_worker.py:17 | numbered candidates for different counters are different paths |
| OutputNaming.SomeNumberedCandidateFree | core/batch_worker.py:15-18 | among the counters 1 to one past the number of existing files, one names a free path, so the probe loop ends |
| OutputNaming.FirstFreeBound | core/batch_worker.py:15-18 | the first free counter is at most one past the number of existing files |
| OutputNaming.FirstFreeUnique | core/batch_worker.py:15-18 | the first free counter is determined by the existing files alone |
| OutputNaming.AllocateAfterWrite | core/batch_worker.py:15-18 | once the chosen file has been written, choosing again yields a later counter and a different path |
| OutputNaming.FreshName | core/batch_worker.py:15-18 | the probe loop returns a path that does not exist; it is the candidate at the first free counter, probing the plain name and then `_1`, `_2`, ... in order |
| OutputNaming.EnsureOutputPath | core/batch_worker.py:6-19 | the destination does not exist; it is the plain `{prefix}{stem}{suffix}{suffix of source}` in the output folder when that is free, otherwise the first free numbered name; it keeps the source's extension; `keep_name` does not affect it |
| Exporter.OutputSize | core/exporter.py:23-26 | the image size after the optional resize: the requested size when one is given, the decoded size otherwise |
| Exporter.Place | core/exporter.py:30-34 | the watermark's centre is the anchor scaled to the image and truncated; its top-left corner is half the watermark, rounded down, above and to the left of it |
| Exporter.EncodingFor | core/exporter.py:42-46 | "jpg" or "jpeg" in any case selects JPEG at the given quality with optimisation; any other format selects PNG at level 6 |
| Exporter.OverlayAt | core/exporter.py:37-38 | the overlay pixel at a position: the watermark pixel at its offset from the top-left corner inside the watermark's rectangle, transparent elsewhere |
| Exporter.Compose | core/exporter.py:6-48 | the call returns the destination unchanged; the output has the decoded size or the requested resize; the watermark is placed at the anchor on that output size; JPEG at the requested quality with optimisation is chosen exactly when the format is "jpg" or "jpeg" in any case, PNG at level 6 otherwise |
| Exporter.BuildOverlay | core/exporter.py:37-38 | the overlay has the image's size; each pixel inside the watermark's rectangle shows the watermark pixel at its offset, every other pixel stays transparent |
| Exporter.OverlayShowsWatermark | core/exporter.py:37-38 | the paste is a translation: an overlay pixel is covered exactly inside the rectangle at the top-left corner, it then shows a watermark pixel (within the watermark's size) at its offset from that corner, and no watermark pixel shows at two positions |
| Exporter.CentrePixelOnAnchor | core/exporter.py:30-38 | pasted where the placement puts it, the watermark's own centre pixel (half its size, rounded down) lands exactly on the scaled anchor point |
| Exporter.PlacementCentresWatermark | core/exporter.py:30-34 | the centre is the scaled anchor rounded toward zero, lies inside the image for anchors in [0, 1], and splits the watermark into halves that differ by at most one pixel |
| Exporter.AxisCentre | core/exporter.py:30-31 | along one axis, the truncated scaled anchor is the whole part of the exact position and lies between 0 and the image's extent |
| Exporter.DefaultAnchorCentres | core/exporter.py:10 | the default anchor (0.5, 0.5) puts the centre at half the image size, rounded down |
| Exporter.AnchorExample | core/exporter.py:30-31 | anchor (0.9, 0.9) on a 1000 x 800 image centres the watermark at (900, 720) |
| Exporter.PlacementNotClamped | core/exporter.py:33-38 | the placement is not clamped: anchored at a corner the watermark hangs half outside the image |
| Exporter.EncodingDispatch | core/exporter.py:42-46 | "jpg" and "JPEG" select JPEG at the given quality with optimisation; "png" and an unknown format such as "gif" both select PNG at compression level 6, without error |
| Watermark.FontFor | core/watermark.py:24-27 | the font: the TrueType face at the requested size for a non-empty font path, the default face otherwise |
| Watermark.CanvasSize | core/watermark.py:37-40 | the canvas: the ink box's width and height, each plus the magnitude of the shadow offset on that axis and four stroke widths |
| Watermark.TextOrigin | core/watermark.py:56-58 | where the text is drawn: one stroke width from the left, and one stroke width from the top minus `int(font_size * 0.2)` |
| Watermark.Plan | core/watermark.py:5-81 | `create_text_watermark_image` for a measured ink box: the font, the canvas size, the optional shadow pass (only for a positive blur, at the text origin moved by the shadow offset, in the stroke colour at alpha `int(255 * 0.7)`) and the main draw in the colour with alpha `int(255 * opacity)` and the given outline |
| Watermark.CanvasCoversText | core/watermark.py:35-40 | the canvas exceeds the ink box by exactly the shadow offset's magnitude plus four stroke widths on each axis, so it is never smaller than the text |
| Watermark.TextRaisedByFifth | core/watermark.py:56-58 | the text starts one stroke width from the left and is raised by the font size divided by five (rounded down) |
| Watermark.ShadowOnlyWhenBlurred | core/watermark.py:61-67 | a shadow pass exists exactly when the blur is positive; it draws the same text at the origin moved by the shadow offset, in the stroke colour at alpha 178, blurred by that radius |
| Watermark.MainFillFromOpacity | core/watermark.py:77-78 | the main text keeps the colour's red, green and blue, has an alpha between 0 and 255 (255 at full opacity) and the given outline |
| Watermark.FontChoice | core/watermark.py:24-27 | a non-empty font path loads that TrueType face at the requested size, otherwise the default face is used; for the same measured ink box the font path changes nothing in the render plan but the font |
| BatchWorker.RequestOf | core/batch_worker.py:30-37 | a task's compose call uses the task's paths and watermark, and its anchor, format, quality and resize when given; where it gives none, anchor (0.5, 0.5), format "png", quality 90 and no resize |
| BatchWorker.Worker | core/batch_worker.py:28-41 | a returning call gives success with an empty message; a raising one gives failure with the exception's text |
| BatchWorker.Outcomes | core/batch_worker.py:28-46 | each task's own result, in submission order: the worker applied to what its compose call did |
| BatchWorker.Collected | core/batch_worker.py:47-51 | the results as `as_completed` yields them: the worker's result for each task index of the completion order, in that order |
| BatchWorker.Successes | core/batch_worker.py:39-41 | the number of tasks whose compose call returned, never more than the number of tasks |
| BatchWorker.CollectedRespectsMultiset | core/batch_worker.py:47-51 | collecting along two index sequences with the same elements gives the same outcomes, in some order |
| BatchWorker.CollectedArePerTaskOutcomes | core/batch_worker.py:43-52 | whatever the completion order, the results are the tasks' own outcomes, one per task |
| BatchWorker.CompletionOrderIrrelevant | core/batch_worker.py:43-51 | two completion orders (other pool sizes, other schedules) give the same results up to order |
| BatchWorker.SuccessfulOutcomesCounted | core/batch_worker.py:39-41 | the successful results number exactly the tasks whose compose call returned |
| BatchWorker.OneFailureAmongSuccesses | core/batch_worker.py:28-52 | one raising task among returning ones gives exactly one failure, carrying its message; every other task still gives a success |
| BatchWorker.BatchExport | core/batch_worker.py:21-52 | one result per task, in completion order, equal as a multiset to the per-task outcomes; with a callback, one call per result with the running index 1, 2, ..., the total and that same result; without one, no calls |
| ExportThread.Report | main.py:93-96 | a progress report carries the current success count and the total |
| ExportThread.Run | main.py:75-99 | one progress signal per task, in task order, each carrying the number of successes so far, the total and the saved path or the error text with the source's base name; then exactly one finished signal |
| ExportThread.DoneCountsUp | main.py:92-96 | the reported count never decreases, never exceeds the number of tasks reported, and stands still exactly at a failure |
| ExportThread.FinalDoneIsSuccessCount | main.py:92-93 | the count after the last task is the number of successful outcomes a batch export of the same tasks would collect |
| TemplateManager.DefaultStore | core/template_manager.py:20-37 | the state `load_templates` installs without a file: the single template "默认模板" with its eleven default settings, marked last used |
| TemplateManager.StoreOf | core/template_manager.py:15-19 | the state read from an existing file: its "templates" map, empty when the key is missing, and its "last_used" value, none when missing |
| TemplateManager.FileOf | core/template_manager.py:40-46 | what `save_templates` writes: both keys, holding the map and the last-used name |
| TemplateManager.Saved | core/template_manager.py:48-52 | the state after `save_template`: the settings stored under the name and the name marked last used |
| TemplateManager.LoadResult | core/template_manager.py:54-60 | what `load_template` returns: the stored settings, or nothing for a missing name |
| TemplateManager.Loaded | core/template_manager.py:54-60 | the state after `load_template`: a stored name becomes last used; a missing name changes nothing |
| TemplateManager.Deleted | core/template_manager.py:62-69 | the state after `delete_template`: a stored name is removed and, when it was last used, "默认模板" becomes last used; a missing name changes nothing |
| TemplateManager.DefaultStoreShape | core/template_manager.py:20-37 | without a template file the store holds exactly one template, "默认模板", which is also the last used one; its font size is 40 and its position "bottom_right" |
| TemplateManager.PersistRoundTrip | core/template_manager.py:15-19 | reading back what a save wrote restores the state exactly |
| TemplateManager.SaveStoresUnderName | core/template_manager.py:48-52 | saving puts the settings under the name, replacing an earlier entry, makes it the last used one and leaves every other entry unchanged |
| TemplateManager.SaveOverwrites | core/template_manager.py:48-52 | saving twice under one name is the same as saving the second settings once |
| TemplateManager.LoadAfterSave | core/template_manager.py:48-60 | a saved template loads back as saved, and loading it changes nothing further |
| TemplateManager.LoadBehaviour | core/template_manager.py:54-60 | loading a stored name returns its settings and makes it last used, leaving the map alone; loading a missing name returns nothing and changes nothing |
| TemplateManager.DeleteRemovesOnlyName | core/template_manager.py:62-69 | deleting removes exactly that name; the last-used name falls back to "默认模板" when it was the deleted one and is kept otherwise; a missing name changes nothing |
| TemplateManager.LoadAfterDelete | core/template_manager.py:54-69 | after a delete the name no longer loads |
| TemplateManager.DeleteKeepsLastUsedValid | core/template_manager.py:62-69 | deleting keeps the last-used name pointing at a stored template, unless the deleted one was last used and the default template is gone or is the one deleted |
| TemplateManager.DeleteDefaultLeavesDanglingName | core/template_manager.py:62-69 | the store itself does not protect the default template: deleting it from the initial state leaves the last-used name pointing at nothing |
| TemplateManager.TemplateManager.constructor | core/template_manager.py:8-11 | construction without a file yields the default store, persisted; with a file it yields the file's content |
| TemplateManager.TemplateManager.LoadTemplates | core/template_manager.py:13-38 | an existing file is read, missing keys giving no templates and no last-used name; otherwise the default template is installed and written |
| TemplateManager.TemplateManager.SaveTemplates | core/template_manager.py:40-46 | the file afterwards holds exactly the in-memory state, which is unchanged |
| TemplateManager.TemplateManager.SaveTemplate | core/template_manager.py:48-52 | the new state is the saved state, and the file holds it |
| TemplateManager.TemplateManager.LoadTemplate | core/template_manager.py:54-60 | returns the stored settings or nothing; a hit marks the name last used and persists, a miss leaves the state and the file alone |
| TemplateManager.TemplateManager.DeleteTemplate | core/template_manager.py:62-69 | the new state is the deleted state; a hit persists, a miss leaves the file alone |
| MainWindow.GridPosition | main.py:884-897 | the `positions` table: for indexes 0 to 8, row by row from the top left, 10 pixels from the near edges, centred with floor division, or 10 pixels from the far edges; any other index gives (10, 10) |
| MainWindow.AxisOffset | main.py:886-896 | one axis of that table: 10, the floor-halved gap, or the extent minus the size minus 10 |
| MainWindow.GridIsRowsTimesColumns | main.py:886-896 | the nine-position table is a column choice (`idx % 3`) times a row choice (`idx / 3`), each near edge, centred or far edge |
| MainWindow.AxisMargins | main.py:886-896 | edge positions keep a 10-pixel margin to their edge; centred positions leave gaps on both sides that differ by at most one pixel |
| MainWindow.GridLandmarks | main.py:886-897 | index 0 is (10, 10), index 4 the rounded-down centre, index 8 the bottom-right corner inset by 10; any index outside 0 to 8 gives (10, 10) |
| MainWindow.ImagesAmong | main.py:792-794 | as written, the walk of a folder keeps, in walk order, every entry, file or folder, whose name passes `is_image_file` |
| MainWindow.ImageFilesAmong | main.py:792-794 | the corrected walk: in walk order, the entries that are files and whose name passes `is_image_file` |
| MainWindow.ExpandOne | main.py:789-796 | what one dropped or chosen path contributes: the corrected walk of a folder, the path itself when it is an image file, nothing otherwise |
| MainWindow.Expanded | main.py:788-796 | the corrected candidate list `new`: the contributions of the paths, in order |
| MainWindow.ImagesAmongExact | main.py:792-794 | as written, the walk of a folder keeps exactly its entries, files or folders, that pass the extension filter |
| MainWindow.ImageFilesAmongExact | main.py:792-794 | the corrected walk keeps exactly the entries that are files and pass the extension filter |
| MainWindow.WalkKeepsFolderNamedLikeImage | main.py:792-794 | as written, a sub-folder "photos/2023.jpg" of "photos" is kept as an image |
| MainWindow.WalkSkipsFolderNamedLikeImage | main.py:792-794 | the corrected walk leaves that sub-folder out |
| MainWindow.ExpandedExact | main.py:788-796 | a path is a candidate exactly when it is an image file found under one of the given folders or is one of the given image files |
| MainWindow.ImagesUnder | main.py:792-794 | the walk of one folder keeps its image files, in walk order |
| MainWindow.CollectImages | main.py:788-796 | the first loop builds the candidate list for the given paths, in order |
| MainWindow.AppendUnseen | main.py:798-800 | the list followed by each candidate not yet in it, in candidate order |
| MainWindow.FirstOccurrences | main.py:798-800 | the reference definition of what an import adds: the candidates found neither in the list nor earlier among the candidates, in order |
| MainWindow.AppendUnseenElements | main.py:798-800 | after the import the list holds exactly the old paths and the candidates |
| MainWindow.AppendUnseenKeepsOrder | main.py:798-800 | the old list is kept as a prefix and is followed by the first occurrences of the unseen candidates, in input order |
| MainWindow.AppendUnseenNoDuplicates | main.py:798-800 | a duplicate-free list stays duplicate-free, whatever repeats the input has |
| MainWindow.AppendUnseenIdempotent | main.py:798-800 | importing the same paths twice adds nothing the second time |
| MainWindow.ImportRun | main.py:798-805 | the second loop of `add_paths` when thumbnails can fail: unseen candidates are appended one by one until the first whose thumbnail fails, which is appended and ends the import; the flag says whether it ended that way |
| MainWindow.ImportRunStaysStopped | main.py:798-805 | once a thumbnail has failed, later candidates change nothing |
| MainWindow.ImportRunIsPrefixImport | main.py:798-805 | an import that may stop at a failing thumbnail has appended the unseen candidates of some prefix of the input, the whole input when nothing failed |
| MainWindow.ImportRunThumbnails | main.py:798-805 | the old list is kept as a prefix; when the import stopped, the last appended path is the one whose thumbnail failed; every other appended path has its thumbnail |
| MainWindow.ImportRunWithoutFailures | main.py:798-805 | when every thumbnail succeeds, the import appends all unseen candidates and does not stop |
| MainWindow.ImportRunNoDuplicates | main.py:798-801 | a duplicate-free list stays duplicate-free and never shrinks, even when the import stops early |
| MainWindow.FirstIndex | main.py:815 | `list.index`: the first position holding the value |
| MainWindow.ExportExtension | main.py:959 | the extension of an exported file: ".png" for the format "png", ".jpg" for any other |
| MainWindow.ExtensionMatchesEncoder | main.py:959 | for the two offered formats, the file gets ".jpg" exactly when the exporter writes JPEG |
| MainWindow.CallBinds | main.py:939-949 | a keyword call binds exactly when every keyword it passes names a parameter of `create_text_watermark_image` |
| MainWindow.StyledCallsDoNotBind | main.py:939-949 | as written, the export and preview calls pass keywords the renderer does not accept |
| MainWindow.UnstyledCallsBind | main.py:939-949 | without the style flags, both calls pass only keywords the renderer accepts |
| MainWindow.StartupStore | main.py:166-172 | the store after start-up: loaded from the file (or the default one), loaded again, and the last-used template loaded once more when one is named |
| MainWindow.StartupKeepsStore | main.py:166-172 | start-up never changes what was loaded: the store is the default one when there is no file and exactly the file's content otherwise |
| MainWindow.MainWindow.constructor | main.py:136-172 | the window starts with no images, no selection, no output folder and no preview, and with the template store as start-up leaves it; the file holds the store when there was none or when its last-used template exists, and is untouched otherwise |
| MainWindow.MainWindow.OnPosChanged | main.py:879-898 | moves the watermark to the grid position for the index; nothing changes while the image or the watermark is missing |
| MainWindow.MainWindow.ShowPreview | main.py:819-840 | the preview shows the image and the watermark at the grid position the position box selects |
| MainWindow.MainWindow.OnThumbClicked | main.py:812-817 | the selection becomes the clicked path's position in the list, and it is shown |
| MainWindow.MainWindow.SelectOutputDir | main.py:900-905 | a chosen folder replaces the output folder; a cancelled dialog keeps it |
| MainWindow.MainWindow.AddPaths | main.py:786-805 | the list becomes the old list followed by the unseen candidates up to and including the first whose thumbnail fails, and the call reports whether one failed; with no failures all unseen candidates are appended; it stays duplicate-free and the selection stays valid |
| MainWindow.MainWindow.DeleteSelectedTemplate | main.py:683-693 | "默认模板" is refused and the store and file are left alone; any other name is deleted from the store, and the file then holds the new store when the name existed and is untouched when it did not |
| MainWindow.MainWindow.OnExport | main.py:907-980 | refuses without a selection, without an output folder, or when the output folder is the image's own folder; otherwise stops exactly when the image cannot be opened, and else submits a task for the selected image with a font size of at least 8, the format's extension and the first free name among the plain and numbered ones |

## Left out

- The windowing toolkit: styles, layouts, widgets, dialogs, drag and drop,
  the thumbnail list, the graphics scene, fitting the view and the message
  boxes. Dialog answers and the current widget values are parameters.
- The imaging library: decoding, EXIF orientation, Lanczos resize, glyph
  rasterisation, measuring the ink box, Gaussian blur, alpha compositing,
  rotation, thumbnails and JPEG/PNG encoding. Their results (sizes, ink box)
  are inputs, and a compose call's outcome is an input `Attempt`.
- `open_image_fix_orientation` and `generate_thumbnail` in core/image_io.py,
  because they only call the imaging library. Whether they raise for a given
  path is an input: `thumbnailOk` of `AddPaths` and `opens` of `OnExport`.
- The JSON encoding of the template file and JSON parse errors: the file is
  modelled as the last value written to it.
- core/templates.py is not part of this model; it only reads and writes JSON
  and creates a folder.
- demo_export.py is not part of this model; it is a demonstration script with
  fixed paths.
- The thread pool and the export thread: a batch is modelled sequentially,
  with the completion order as an arbitrary permutation of the task indices.
- `apply_template`, `collect_current_settings`, `save_current_as_template` and
  `load_selected_template` in main.py only copy values between widgets and the
  store; the store operations they call are modelled.
- `update_preview_watermark`, `make_watermark_image_for_preview`,
  `on_export_progress` and `on_export_finished` only redraw or update widgets.
- The free dragging of the watermark item and the anchor and scale computed
  from the preview (main.py:929-936). These use floating-point arithmetic, so
  the anchor and the scaled font size are inputs of `OnExport`.
- Rotation of the watermark (main.py:951-953), because it only calls the
  imaging library.
- Floating-point numbers are modelled as exact reals. Rounding of the
  floating-point products in `int(anchor * size)` and `int(255 * opacity)` is
  not modelled.
- Path normalisation. `os.path.abspath` is a function parameter of `OnExport`.
  pathlib's collapsing of repeated or trailing separators and of "." is not
  modelled, and paths use '/' as separator.
- Directory walking. `rglob` is a `FileTree` parameter that maps each folder
  to the paths found under it, in walk order.
- The file system probed for free names is the set of paths that exist when
  the name is chosen. Files created by other programs between the probe and
  the write are not modelled.
- PathText.Lower: only ASCII capitals are lowered. Python's `str.lower` also
  lowers other characters, and some non-ASCII ones become ASCII (the Kelvin
  sign becomes "k"; U+0130 becomes "i" followed by a combining dot). This
  cannot change whether a path is accepted: no non-ASCII character lowers on
  its own to one of the letters of the supported extensions.
- BatchWorker.BatchExport: `max_workers` is accepted but has no effect on the
  model. It only changes the completion order, which is an input.
- MainWindow.MainWindow.OnThumbClicked requires the clicked path to be in the
  list. The list widget only ever shows paths from the list. The preview it
  shows is assumed to succeed, as in `ShowPreview`.
- MainWindow.MainWindow.ShowPreview: models the corrected renderer call (see
  Findings) and a path the imaging library can decode. As written,
  `show_preview` stops with an exception after placing the base image, and the
  watermark item is never set.
- MainWindow.MainWindow.AddPaths: folders are expanded with the corrected
  walk, which keeps only files (see Findings). As written, a sub-folder whose
  name passes the extension filter is appended too, its thumbnail cannot be
  generated, and the import stops there.
- MainWindow.ExpandOne: walks a folder with the corrected files-only walk;
  as written, a folder also contributes its sub-folders whose name passes the
  extension filter.
- MainWindow.Expanded: is the corrected candidate list; as written, the list
  also holds the sub-folders, under the given folders, whose name passes the
  extension filter.
- MainWindow.CollectImages: builds the candidate list with the corrected
  files-only walk; as written, the list also holds the sub-folders whose name
  passes the extension filter.
- MainWindow.ImagesUnder: keeps only the files of a walk; as written, the walk
  also keeps sub-folders whose name passes the extension filter
  (`MainWindow.ImagesAmong` models that walk).
- MainWindow.ExpandedExact: characterises the corrected candidate list; as
  written, a candidate may also be a sub-folder, under one of the given
  folders, whose name passes the extension filter.
- MainWindow.MainWindow.OnExport: only the failure to open the image is
  modelled; a failure of a later step (rendering, rotating) raises out of the
  handler before the task is submitted and is not modelled.
- MainWindow.MainWindow.OnExport: the watermark passed to the task is the
  size of the rendered, rotated image, given as an input. The render call
  itself is the corrected one described under Findings.
- MainWindow.MainWindow.constructor: the template store is loaded twice at
  start-up, once by the store's constructor and once more by the window, as in
  the source. The widget updates that follow are not modelled.

## Findings

| source | as written | input that shows it | evidently intended | confidence | as-written member | corrected member |
|---|---|---|---|---|---|---|
| main.py:939-949 (also main.py:852-863) | the export and the preview pass `bold=` and `italic=` to `create_text_watermark_image`, whose parameters (core/watermark.py:5-16) have no such names | clicking any thumbnail: `show_preview` raises TypeError at the renderer call (main.py:852) before the watermark item is set (main.py:831), so it stays `None` (main.py:396); a later export then fails with AttributeError at main.py:926 and never reaches the renderer call at main.py:939 | call the renderer without the style flags, or add the flags to the renderer | high, not executed | MainWindow.StyledCallsDoNotBind | MainWindow.UnstyledCallsBind |
| main.py:792-794 | `rglob("*")` yields folders as well as files, and the filter looks only at the name | importing a folder "photos" holding a sub-folder "photos/2023.jpg": the sub-folder is appended to the list, then `generate_thumbnail` cannot open it and raises, so the import stops there | keep only files, as main.py:795 does for paths given directly | high, not executed | MainWindow.WalkKeepsFolderNamedLikeImage | MainWindow.ImageFilesAmongExact |
