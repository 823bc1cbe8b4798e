/** The main window's own logic: importing paths without duplicates, selecting
    an image, the nine-position placement grid of the preview, the output
    folder, the default-template guard on deletion and the preparation of an
    export task. Widgets, dialogs, the preview scene's drawing and the imaging
    calls are not modelled: the sizes they produce are inputs. */
module MainWindow {
  import opened Base
  import opened PathText
  import opened ImageIo
  import opened OutputNaming
  import TM = TemplateManager
  import BatchWorker
  import Exporter

  // ---------------------------------------------------------------------------
  // The nine-position grid

  /** The preview position for grid index `idx` (0 to 8, row by row from the
      top left) of a watermark of size `ww` x `wh` on a preview of size
      `w` x `h`; any other index gives the top-left position. */
  function GridPosition(idx: int, w: int, h: int, ww: int, wh: int): Point {
    if idx == 0 then Point(10, 10)
    else if idx == 1 then Point((w - ww) / 2, 10)
    else if idx == 2 then Point(w - ww - 10, 10)
    else if idx == 3 then Point(10, (h - wh) / 2)
    else if idx == 4 then Point((w - ww) / 2, (h - wh) / 2)
    else if idx == 5 then Point(w - ww - 10, (h - wh) / 2)
    else if idx == 6 then Point(10, h - wh - 10)
    else if idx == 7 then Point((w - ww) / 2, h - wh - 10)
    else if idx == 8 then Point(w - ww - 10, h - wh - 10)
    else Point(10, 10)
  }

  /** Along one axis: 10 from the near edge, centred, or 10 from the far edge. */
  function AxisOffset(slot: int, extent: int, size: int): int {
    if slot == 0 then 10 else if slot == 1 then (extent - size) / 2 else extent - size - 10
  }

  /** The table is the product of a column choice (`idx % 3`) and a row
      choice (`idx / 3`). */
  lemma GridIsRowsTimesColumns(idx: int, w: int, h: int, ww: int, wh: int)
    requires 0 <= idx < 9
    ensures GridPosition(idx, w, h, ww, wh) == Point(AxisOffset(idx % 3, w, ww), AxisOffset(idx / 3, h, wh))
  {
  }

  /** Edge positions keep a 10-pixel margin to their edge; centred positions
      leave gaps on both sides that differ by at most one pixel. */
  lemma AxisMargins(slot: int, extent: int, size: int)
    requires 0 <= slot < 3
    ensures var o := AxisOffset(slot, extent, size);
      && (slot == 0 ==> o == 10)
      && (slot == 2 ==> extent - (o + size) == 10)
      && (slot == 1 ==> 0 <= (extent - (o + size)) - o <= 1)
  {
  }

  /** Index 0 is the top-left corner, index 4 the centre and index 8 the
      bottom-right corner; every index outside 0 to 8 falls back to the top left. */
  lemma GridLandmarks(idx: int, w: int, h: int, ww: int, wh: int)
    ensures GridPosition(0, w, h, ww, wh) == Point(10, 10)
    ensures GridPosition(4, w, h, ww, wh) == Point((w - ww) / 2, (h - wh) / 2)
    ensures GridPosition(8, w, h, ww, wh) == Point(w - ww - 10, h - wh - 10)
    ensures !(0 <= idx < 9) ==> GridPosition(idx, w, h, ww, wh) == Point(10, 10)
  {
  }

  // ---------------------------------------------------------------------------
  // Importing paths

  /** The file system as the import sees it: each existing directory with
      every path found under it recursively (files and sub-directories, in walk
      order), and the existing files. */
  datatype FileTree = FileTree(dirs: map<string, seq<string>>, files: set<string>)

  /** The walk filter as written: the entries of `fs` whose name passes the
      extension filter, in order, whether they are files or directories. */
  function ImagesAmong(fs: seq<string>): seq<string> {
    if fs == [] then []
    else ImagesAmong(fs[..|fs| - 1]) + (if IsImageFile(fs[|fs| - 1]) then [fs[|fs| - 1]] else [])
  }

  /** The walk filter as intended: the entries of `fs` that are existing files
      and pass the extension filter, in order. */
  function ImageFilesAmong(files: set<string>, fs: seq<string>): seq<string> {
    if fs == [] then []
    else
      var x := fs[|fs| - 1];
      ImageFilesAmong(files, fs[..|fs| - 1]) + (if x in files && IsImageFile(x) then [x] else [])
  }

  /** What one dropped or chosen path contributes: the image files under a
      directory, the path itself when it is an image file, nothing otherwise. */
  function ExpandOne(tree: FileTree, p: string): seq<string> {
    if p in tree.dirs then ImageFilesAmong(tree.files, tree.dirs[p])
    else if p in tree.files && IsImageFile(p) then [p]
    else []
  }

  /** The candidate list built from `paths`, in order. */
  function Expanded(tree: FileTree, paths: seq<string>): seq<string> {
    if paths == [] then []
    else Expanded(tree, paths[..|paths| - 1]) + ExpandOne(tree, paths[|paths| - 1])
  }

  /** As written, the walk keeps exactly the entries whose name passes the
      extension filter, directories included. */
  lemma {:induction false} ImagesAmongExact(fs: seq<string>)
    ensures forall x :: x in ImagesAmong(fs) <==> x in fs && IsImageFile(x)
  {
    if fs != [] {
      ImagesAmongExact(fs[..|fs| - 1]);
      assert fs == fs[..|fs| - 1] + [fs[|fs| - 1]];
    }
  }

  /** As intended, the walk keeps exactly the existing image files among the entries. */
  lemma {:induction false} ImageFilesAmongExact(files: set<string>, fs: seq<string>)
    ensures forall x :: x in ImageFilesAmong(files, fs) <==> x in fs && x in files && IsImageFile(x)
  {
    if fs != [] {
      ImageFilesAmongExact(files, fs[..|fs| - 1]);
      assert fs == fs[..|fs| - 1] + [fs[|fs| - 1]];
    }
  }

  /** A folder "photos" holding a sub-folder "photos/2023.jpg" with one picture in it. */
  const FolderLikeImage: FileTree :=
    FileTree(map["photos" := ["photos/2023.jpg", "photos/2023.jpg/a.png"],
                 "photos/2023.jpg" := ["photos/2023.jpg/a.png"]],
             {"photos/2023.jpg/a.png"})

  /** As written, walking "photos" keeps the sub-folder "photos/2023.jpg" as an
      image, although it is a directory and no file. */
  lemma WalkKeepsFolderNamedLikeImage()
    ensures "photos/2023.jpg" in FolderLikeImage.dirs && "photos/2023.jpg" !in FolderLikeImage.files
    ensures "photos/2023.jpg" in ImagesAmong(FolderLikeImage.dirs["photos"])
  {
    FolderNameAccepted();
    ImagesAmongExact(FolderLikeImage.dirs["photos"]);
  }

  /** As intended, walking "photos" leaves the sub-folder out. */
  lemma WalkSkipsFolderNamedLikeImage()
    ensures "photos/2023.jpg" !in ImageFilesAmong(FolderLikeImage.files, FolderLikeImage.dirs["photos"])
  {
    ImageFilesAmongExact(FolderLikeImage.files, FolderLikeImage.dirs["photos"]);
  }

  /** `x` is found through the given path `p`: as an existing file under it
      when `p` is a directory, or as `p` itself when `p` is a file. */
  predicate Contributes(tree: FileTree, p: string, x: string) {
    if p in tree.dirs then x in tree.dirs[p] && x in tree.files else p in tree.files && x == p
  }

  /** A path is a candidate exactly when it is an image file found through
      one of the given paths. */
  lemma {:induction false} ExpandedExact(tree: FileTree, paths: seq<string>, x: string)
    ensures x in Expanded(tree, paths) <==>
              IsImageFile(x) && exists i :: 0 <= i < |paths| && Contributes(tree, paths[i], x)
  {
    if paths != [] {
      var n := |paths|;
      var front := paths[..n - 1];
      ExpandedExact(tree, front, x);
      var p := paths[n - 1];
      if p in tree.dirs {
        ImageFilesAmongExact(tree.files, tree.dirs[p]);
      }
      if x in Expanded(tree, front) {
        var i :| 0 <= i < |front| && Contributes(tree, front[i], x);
        assert paths[i] == front[i];
      }
      if IsImageFile(x) && exists i :: 0 <= i < n && Contributes(tree, paths[i], x) {
        var i :| 0 <= i < n && Contributes(tree, paths[i], x);
        if i < n - 1 {
          assert front[i] == paths[i];
        }
      }
    }
  }

  lemma ImageFilesAmongStep(files: set<string>, fs: seq<string>, k: nat)
    requires k < |fs|
    ensures ImageFilesAmong(files, fs[..k + 1]) ==
              ImageFilesAmong(files, fs[..k]) + (if fs[k] in files && IsImageFile(fs[k]) then [fs[k]] else [])
  {
    assert fs[..k + 1][..k] == fs[..k];
  }

  /** The walk of one directory: its image files, in walk order. */
  method ImagesUnder(listing: seq<string>, files: set<string>) returns (images: seq<string>)
    ensures images == ImageFilesAmong(files, listing)
  {
    images := [];
    var j := 0;
    while j < |listing|
      invariant 0 <= j <= |listing|
      invariant images == ImageFilesAmong(files, listing[..j])
    {
      ImageFilesAmongStep(files, listing, j);
      if listing[j] in files && IsImageFile(listing[j]) {
        images := images + [listing[j]];
      }
      j := j + 1;
    }
    assert listing[..j] == listing;
  }

  /** The first loop of `add_paths`: the candidate list for `paths`. */
  method CollectImages(tree: FileTree, paths: seq<string>) returns (found: seq<string>)
    ensures found == Expanded(tree, paths)
  {
    found := [];
    var i := 0;
    while i < |paths|
      invariant 0 <= i <= |paths|
      invariant found == Expanded(tree, paths[..i])
    {
      var p := paths[i];
      assert paths[..i + 1][..i] == paths[..i];
      if p in tree.dirs {
        var images := ImagesUnder(tree.dirs[p], tree.files);
        found := found + images;
      } else if p in tree.files && IsImageFile(p) {
        found := found + [p];
      }
      i := i + 1;
    }
    assert paths[..i] == paths;
  }

  /** `xs` followed by the elements of `ys` not yet present, each once, in
      the order of `ys`. */
  function AppendUnseen(xs: seq<string>, ys: seq<string>): seq<string> {
    if ys == [] then xs
    else
      var prev := AppendUnseen(xs, ys[..|ys| - 1]);
      if ys[|ys| - 1] in prev then prev else prev + [ys[|ys| - 1]]
  }

  /** Reference definition: the elements of `ys` that occur neither in `xs`
      nor earlier in `ys`, in order. */
  function FirstOccurrences(xs: seq<string>, ys: seq<string>): seq<string> {
    if ys == [] then []
    else
      var front := ys[..|ys| - 1];
      var y := ys[|ys| - 1];
      FirstOccurrences(xs, front) + (if y in xs || y in front then [] else [y])
  }

  predicate NoDuplicates(s: seq<string>) {
    forall i, j :: 0 <= i < j < |s| ==> s[i] != s[j]
  }

  /** The result holds exactly the paths of both inputs. */
  lemma {:induction false} AppendUnseenElements(xs: seq<string>, ys: seq<string>)
    ensures forall x :: x in AppendUnseen(xs, ys) <==> x in xs || x in ys
  {
    if ys != [] {
      AppendUnseenElements(xs, ys[..|ys| - 1]);
      assert ys == ys[..|ys| - 1] + [ys[|ys| - 1]];
    }
  }

  /** The existing list is kept as a prefix and is followed by the first
      occurrences of the unseen paths, in input order. */
  lemma {:induction false} AppendUnseenKeepsOrder(xs: seq<string>, ys: seq<string>)
    ensures AppendUnseen(xs, ys) == xs + FirstOccurrences(xs, ys)
  {
    if ys != [] {
      var front := ys[..|ys| - 1];
      AppendUnseenKeepsOrder(xs, front);
      AppendUnseenElements(xs, front);
    }
  }

  /** A duplicate-free list stays duplicate-free, whatever repeats the input has. */
  lemma {:induction false} AppendUnseenNoDuplicates(xs: seq<string>, ys: seq<string>)
    requires NoDuplicates(xs)
    ensures NoDuplicates(AppendUnseen(xs, ys))
  {
    if ys != [] {
      AppendUnseenNoDuplicates(xs, ys[..|ys| - 1]);
    }
  }

  /** Importing the same paths again adds nothing. */
  lemma AppendUnseenIdempotent(xs: seq<string>, ys: seq<string>)
    ensures AppendUnseen(AppendUnseen(xs, ys), ys) == AppendUnseen(xs, ys)
  {
    AppendUnseenElements(xs, ys);
    AllSeenAddsNothing(AppendUnseen(xs, ys), ys);
  }

  lemma {:induction false} AllSeenAddsNothing(xs: seq<string>, ys: seq<string>)
    requires forall y :: y in ys ==> y in xs
    ensures AppendUnseen(xs, ys) == xs
  {
    if ys != [] {
      AllSeenAddsNothing(xs, ys[..|ys| - 1]);
      assert ys[|ys| - 1] in ys;
    }
  }

  /** The second loop of `add_paths`, as a value: each candidate of `ys` not
      yet in the list is appended and its thumbnail generated; the first
      thumbnail that fails (`ok` false) raises, which ends the import with that
      path already appended. The flag tells whether the import was cut short. */
  function ImportRun(xs: seq<string>, ys: seq<string>, ok: string -> bool): (seq<string>, bool) {
    if ys == [] then (xs, false)
    else
      var prev := ImportRun(xs, ys[..|ys| - 1], ok);
      var y := ys[|ys| - 1];
      if prev.1 || y in prev.0 then prev else (prev.0 + [y], !ok(y))
  }

  lemma ImportRunStep(xs: seq<string>, ys: seq<string>, k: nat, ok: string -> bool)
    requires k < |ys|
    ensures var prev := ImportRun(xs, ys[..k], ok);
      ImportRun(xs, ys[..k + 1], ok) ==
        if prev.1 || ys[k] in prev.0 then prev else (prev.0 + [ys[k]], !ok(ys[k]))
  {
    assert ys[..k + 1][..k] == ys[..k];
  }

  /** Once cut short, the import takes no further path. */
  lemma {:induction false} ImportRunStaysStopped(xs: seq<string>, ys: seq<string>, k: nat, ok: string -> bool)
    requires k <= |ys| && ImportRun(xs, ys[..k], ok).1
    ensures ImportRun(xs, ys, ok) == ImportRun(xs, ys[..k], ok)
  {
    if k == |ys| {
      assert ys[..k] == ys;
    } else {
      var front := ys[..|ys| - 1];
      assert front[..k] == ys[..k];
      ImportRunStaysStopped(xs, front, k, ok);
    }
  }

  /** The list after an import is the complete import of some prefix of the
      candidates, and of all of them when no thumbnail failed. */
  lemma {:induction false} ImportRunIsPrefixImport(xs: seq<string>, ys: seq<string>, ok: string -> bool)
    ensures exists m :: 0 <= m <= |ys| && ImportRun(xs, ys, ok).0 == AppendUnseen(xs, ys[..m])
                        && (ImportRun(xs, ys, ok).1 || m == |ys|)
  {
    if ys == [] {
      assert ys[..0] == ys;
    } else {
      var front := ys[..|ys| - 1];
      ImportRunIsPrefixImport(xs, front, ok);
      var m :| 0 <= m <= |front| && ImportRun(xs, front, ok).0 == AppendUnseen(xs, front[..m])
               && (ImportRun(xs, front, ok).1 || m == |front|);
      if ImportRun(xs, front, ok).1 {
        assert ys[..m] == front[..m];
      } else {
        assert front[..m] == front && ys[..|ys|] == ys;
      }
    }
  }

  /** The existing list stays a prefix; every appended path had its thumbnail
      generated except, when the import was cut short, the last one, whose
      thumbnail failed. */
  lemma {:induction false} ImportRunThumbnails(xs: seq<string>, ys: seq<string>, ok: string -> bool)
    ensures var r := ImportRun(xs, ys, ok);
      && |xs| <= |r.0| && r.0[..|xs|] == xs
      && (r.1 ==> |r.0| > |xs| && !ok(r.0[|r.0| - 1]))
      && forall i :: |xs| <= i < |r.0| - (if r.1 then 1 else 0) ==> ok(r.0[i])
  {
    if ys != [] {
      var front := ys[..|ys| - 1];
      ImportRunThumbnails(xs, front, ok);
      var prev := ImportRun(xs, front, ok);
      var y := ys[|ys| - 1];
      if !(prev.1 || y in prev.0) {
        assert (prev.0 + [y])[..|xs|] == prev.0[..|xs|];
      }
    }
  }

  /** When every thumbnail can be generated, the import appends every unseen
      candidate and is not cut short. */
  lemma {:induction false} ImportRunWithoutFailures(xs: seq<string>, ys: seq<string>, ok: string -> bool)
    requires forall y :: y in ys ==> ok(y)
    ensures ImportRun(xs, ys, ok) == (AppendUnseen(xs, ys), false)
  {
    if ys != [] {
      var front := ys[..|ys| - 1];
      forall y | y in front ensures ok(y) {
        assert y in ys;
      }
      ImportRunWithoutFailures(xs, front, ok);
      assert ys[|ys| - 1] in ys;
    }
  }

  /** An import keeps a duplicate-free list duplicate-free and never shortens it. */
  lemma ImportRunNoDuplicates(xs: seq<string>, ys: seq<string>, ok: string -> bool)
    requires NoDuplicates(xs)
    ensures NoDuplicates(ImportRun(xs, ys, ok).0) && |ImportRun(xs, ys, ok).0| >= |xs|
  {
    ImportRunIsPrefixImport(xs, ys, ok);
    var m :| 0 <= m <= |ys| && ImportRun(xs, ys, ok).0 == AppendUnseen(xs, ys[..m])
             && (ImportRun(xs, ys, ok).1 || m == |ys|);
    AppendUnseenNoDuplicates(xs, ys[..m]);
    AppendUnseenKeepsOrder(xs, ys[..m]);
  }

  /** The position of the first occurrence of `x` in `s`. */
  function FirstIndex(s: seq<string>, x: string): (i: nat)
    requires x in s
    ensures i < |s| && s[i] == x && forall j :: 0 <= j < i ==> s[j] != x
  {
    if s[0] == x then 0 else 1 + FirstIndex(s[1..], x)
  }

  // ---------------------------------------------------------------------------
  // Exporting

  /** The file extension of an export: ".png" for the "png" format, ".jpg" for any other. */
  function ExportExtension(fmt: string): string {
    if fmt == "png" then ".png" else ".jpg"
  }

  /** For the two formats the window offers, the extension agrees with the
      encoder the exporter chooses. */
  lemma ExtensionMatchesEncoder(fmt: string, quality: int)
    requires fmt == "png" || fmt == "jpeg"
    ensures ExportExtension(fmt) == ".jpg" <==> Exporter.EncodingFor(fmt, quality).Jpeg?
  {
    assert Lower("png") == "png";
    assert Lower("jpeg") == "jpeg";
  }

  /** Why an export was refused. */
  datatype Refusal = NoImageSelected | NoOutputDir | SameFolder

  /** The result of the export button: refused with a warning, stopped because
      the selected image could not be opened, or a task handed to the export thread. */
  datatype ExportOutcome = Refused(reason: Refusal) | OpenFailed | Submitted(task: BatchWorker.Task, fontSize: int)

  // ---------------------------------------------------------------------------
  // Calling the renderer

  /** The parameters the text renderer accepts (core/watermark.py). */
  const RendererParameters: set<string> :=
    {"text", "font_path", "font_size", "color", "opacity", "stroke_width", "stroke_fill",
     "shadow_offset", "shadow_blur", "max_width"}

  /** The keywords the export passes to the renderer as written. */
  const ExportCallKeywords: set<string> :=
    {"text", "font_path", "font_size", "color", "opacity", "stroke_width", "shadow_blur", "bold", "italic"}

  /** The keywords the preview passes to the renderer as written. */
  const PreviewCallKeywords: set<string> :=
    {"text", "font_path", "font_size", "color", "opacity", "stroke_width", "stroke_fill", "shadow_blur",
     "bold", "italic"}

  /** The style flags the renderer has no parameter for. */
  const StyleFlags: set<string> := {"bold", "italic"}

  /** A call binds when every keyword names a parameter. */
  predicate CallBinds(keywords: set<string>) {
    keywords <= RendererParameters
  }

  /** As written, both calls pass "bold" and "italic", which the renderer does
      not accept: each call fails before any drawing. */
  lemma StyledCallsDoNotBind()
    ensures "bold" in ExportCallKeywords && "bold" !in RendererParameters
    ensures !CallBinds(ExportCallKeywords) && !CallBinds(PreviewCallKeywords)
  {
  }

  /** Without the style flags both calls bind; this is the call the model of
      the window makes. */
  lemma UnstyledCallsBind()
    ensures CallBinds(ExportCallKeywords - StyleFlags) && CallBinds(PreviewCallKeywords - StyleFlags)
  {
  }

  // ---------------------------------------------------------------------------
  // Start-up

  /** The template state after the window starts: the store is loaded (the
      default one when there is no file), loaded again, and the last-used
      template, when named, is loaded once more. */
  function StartupStore(file: Option<TM.FileData>): TM.Store {
    var st := if file.None? then TM.DefaultStore() else TM.StoreOf(file.value);
    if st.lastUsed.Some? then TM.Loaded(st, st.lastUsed.value) else st
  }

  /** Start-up never changes what was loaded: the default store without a
      template file, exactly the file's content otherwise. */
  lemma StartupKeepsStore(file: Option<TM.FileData>)
    ensures file.None? ==> StartupStore(file) == TM.DefaultStore()
    ensures file.Some? ==> StartupStore(file) == TM.StoreOf(file.value)
  {
  }

  /** The placed watermark in the preview: its pixmap size and position. */
  datatype WmItem = WmItem(size: Size, pos: Point)

  class MainWindow {
    var imagePaths: seq<string>
    var currentIndex: Option<int>
    var outputDir: Option<string>
    /** The preview's base pixmap size, once an image is shown. */
    var baseItem: Option<Size>
    var wmItem: Option<WmItem>
    var manager: TM.TemplateManager

    /** The selection indexes the list, and the list has no duplicates. */
    predicate Valid()
      reads this
    {
      && (currentIndex.Some? ==> 0 <= currentIndex.value < |imagePaths|)
      && NoDuplicates(imagePaths)
    }

    /** `__init__` with the template file `file` (absent when `None`). */
    constructor(file: Option<TM.FileData>)
      ensures imagePaths == [] && currentIndex.None? && outputDir.None?
      ensures baseItem.None? && wmItem.None?
      ensures fresh(manager) && manager.State() == StartupStore(file)
      ensures file.None? ==> manager.Persisted()
      ensures file.Some? && file.value.lastUsed.Some? && file.value.lastUsed.value in TM.StoreOf(file.value).templates ==>
                manager.Persisted()
      ensures file.Some? && !(file.value.lastUsed.Some? && file.value.lastUsed.value in TM.StoreOf(file.value).templates) ==>
                manager.file == file
      ensures Valid()
    {
      imagePaths := [];
      currentIndex := None;
      outputDir := None;
      baseItem := None;
      wmItem := None;
      manager := new TM.TemplateManager(file);
      new;
      manager.LoadTemplates();
      if manager.lastUsed.Some? {
        var settings := manager.LoadTemplate(manager.lastUsed.value);
      }
    }

    /** `on_pos_changed`: moves the watermark to grid position `idx`; does
        nothing until both the image and the watermark are shown. */
    method OnPosChanged(idx: int)
      modifies this
      ensures old(baseItem).None? || old(wmItem).None? ==> wmItem == old(wmItem)
      ensures old(baseItem).Some? && old(wmItem).Some? ==>
                var b, m := old(baseItem).value, old(wmItem).value;
                wmItem == Some(WmItem(m.size, GridPosition(idx, b.width, b.height, m.size.width, m.size.height)))
      ensures imagePaths == old(imagePaths) && currentIndex == old(currentIndex) && outputDir == old(outputDir)
      ensures baseItem == old(baseItem) && manager == old(manager)
    {
      if baseItem.None? || wmItem.None? {
        return;
      }
      var b, m := baseItem.value, wmItem.value;
      wmItem := Some(WmItem(m.size, GridPosition(idx, b.width, b.height, m.size.width, m.size.height)));
    }

    /** `show_preview` for a preview of size `preview` and a rendered watermark
        of size `wm`: the watermark is first put 20 pixels from the bottom-right
        corner, then moved to the grid position the position box selects. */
    method ShowPreview(preview: Size, wm: Size, posIndex: int)
      modifies this
      ensures baseItem == Some(preview)
      ensures wmItem == Some(WmItem(wm, GridPosition(posIndex, preview.width, preview.height, wm.width, wm.height)))
      ensures imagePaths == old(imagePaths) && currentIndex == old(currentIndex) && outputDir == old(outputDir)
      ensures manager == old(manager)
    {
      baseItem := Some(preview);
      wmItem := Some(WmItem(wm, Point(preview.width - wm.width - 20, preview.height - wm.height - 20)));
      OnPosChanged(posIndex);
    }

    /** `on_thumb_clicked`: selects the clicked path (which the list always
        holds) and shows it. */
    method OnThumbClicked(path: string, preview: Size, wm: Size, posIndex: int)
      requires Valid() && path in imagePaths
      modifies this
      ensures Valid()
      ensures currentIndex.Some? && imagePaths[currentIndex.value] == path
      ensures currentIndex == Some(FirstIndex(imagePaths, path))
      ensures imagePaths == old(imagePaths) && outputDir == old(outputDir) && manager == old(manager)
      ensures baseItem == Some(preview)
      ensures wmItem == Some(WmItem(wm, GridPosition(posIndex, preview.width, preview.height, wm.width, wm.height)))
    {
      currentIndex := Some(FirstIndex(imagePaths, path));
      ShowPreview(preview, wm, posIndex);
    }

    /** `select_output_dir`: a chosen folder replaces the output folder; a
        cancelled dialog (empty answer) keeps it. */
    method SelectOutputDir(chosen: string)
      modifies this
      ensures outputDir == if chosen != "" then Some(chosen) else old(outputDir)
      ensures imagePaths == old(imagePaths) && currentIndex == old(currentIndex)
      ensures baseItem == old(baseItem) && wmItem == old(wmItem) && manager == old(manager)
    {
      if chosen != "" {
        outputDir := Some(chosen);
      }
    }

    /** `add_paths`: collects the image files among the given paths (walking
        directories), then appends those not yet listed, generating each new
        path's thumbnail right after appending it. `thumbnailOk` tells which
        thumbnails can be generated; the first that cannot raises, which ends
        the import and is reported as `raised`. */
    method AddPaths(paths: seq<string>, tree: FileTree, thumbnailOk: string -> bool) returns (raised: bool)
      requires Valid()
      modifies this
      ensures Valid()
      ensures (imagePaths, raised) == ImportRun(old(imagePaths), Expanded(tree, paths), thumbnailOk)
      ensures (forall y :: y in Expanded(tree, paths) ==> thumbnailOk(y)) ==>
                !raised && imagePaths == AppendUnseen(old(imagePaths), Expanded(tree, paths))
      ensures currentIndex == old(currentIndex) && outputDir == old(outputDir)
      ensures baseItem == old(baseItem) && wmItem == old(wmItem) && manager == old(manager)
    {
      var found := CollectImages(tree, paths);
      ghost var start := imagePaths;
      raised := false;
      var k := 0;
      while k < |found| && !raised
        invariant 0 <= k <= |found|
        invariant (imagePaths, raised) == ImportRun(start, found[..k], thumbnailOk)
        invariant currentIndex == old(currentIndex) && outputDir == old(outputDir)
        invariant baseItem == old(baseItem) && wmItem == old(wmItem) && manager == old(manager)
      {
        ImportRunStep(start, found, k, thumbnailOk);
        if found[k] !in imagePaths {
          imagePaths := imagePaths + [found[k]];
          raised := !thumbnailOk(found[k]);
        }
        k := k + 1;
      }
      if raised {
        ImportRunStaysStopped(start, found, k, thumbnailOk);
      } else {
        assert found[..k] == found;
      }
      ImportRunNoDuplicates(start, found, thumbnailOk);
      if forall y :: y in found ==> thumbnailOk(y) {
        ImportRunWithoutFailures(start, found, thumbnailOk);
      }
    }

    /** `delete_selected_template`: refuses the default template and otherwise
        deletes the named one from the store. */
    method DeleteSelectedTemplate(name: string) returns (deleted: bool)
      modifies manager
      ensures deleted <==> name != TM.DefaultName
      ensures !deleted ==> manager.State() == old(manager.State()) && manager.file == old(manager.file)
      ensures deleted ==> manager.State() == TM.Deleted(old(manager.State()), name)
      ensures deleted && name in old(manager.templates) ==> manager.Persisted()
      ensures deleted && name !in old(manager.templates) ==> manager.file == old(manager.file)
    {
      if name == TM.DefaultName {
        return false;
      }
      manager.DeleteTemplate(name);
      return true;
    }

    /** `on_export`: refuses without a selected image, without an output
        folder, or when the output folder is the image's own folder (compared
        through `absPath`); then opens the selected image (`opens` says whether
        that succeeds; a failure raises out of the handler before anything is
        submitted); otherwise prepares the task for the selected image: a font
        size of at least 8, the format's extension and the first free name in
        the output folder among the plain and numbered ones. */
    method OnExport(existing: set<string>, absPath: string -> string, opens: bool, anchor: Anchor, scaledFontSize: int,
                    fmt: string, prefix: string, suffix: string, watermark: Size) returns (r: ExportOutcome)
      requires Valid()
      ensures currentIndex.None? ==> r == Refused(NoImageSelected)
      ensures currentIndex.Some? && (outputDir.None? || outputDir.value == "") ==> r == Refused(NoOutputDir)
      ensures currentIndex.Some? && outputDir.Some? && outputDir.value != "" ==>
                (r == Refused(SameFolder) <==>
                   absPath(Parent(imagePaths[currentIndex.value])) == absPath(outputDir.value))
      ensures currentIndex.Some? && outputDir.Some? && outputDir.value != "" &&
              absPath(Parent(imagePaths[currentIndex.value])) != absPath(outputDir.value) ==>
                (r == OpenFailed <==> !opens)
      ensures r.Submitted? <==>
                && currentIndex.Some? && outputDir.Some? && outputDir.value != ""
                && absPath(Parent(imagePaths[currentIndex.value])) != absPath(outputDir.value)
                && opens
      ensures r.Submitted? ==>
                && currentIndex.Some? && outputDir.Some?
                && var src := imagePaths[currentIndex.value];
                   var base := prefix + Stem(src) + suffix;
                   var ext := ExportExtension(fmt);
                && r.task == BatchWorker.Task(src, r.task.dstPath, watermark, Some(anchor), Some(fmt), Some(90), None)
                && r.task.dstPath !in existing
                && (exists k :: FirstFreeAt(existing, outputDir.value, base, ext, k) &&
                                r.task.dstPath == Candidate(outputDir.value, base, ext, k))
                && r.fontSize >= 8
                && (scaledFontSize >= 8 ==> r.fontSize == scaledFontSize)
                && (scaledFontSize < 8 ==> r.fontSize == 8)
    {
      if currentIndex.None? {
        return Refused(NoImageSelected);
      }
      if outputDir.None? || outputDir.value == "" {
        return Refused(NoOutputDir);
      }
      var src := imagePaths[currentIndex.value];
      if absPath(Parent(src)) == absPath(outputDir.value) {
        return Refused(SameFolder);
      }
      if !opens {
        return OpenFailed;
      }
      var fontSize := scaledFontSize;
      if fontSize < 8 {
        fontSize := 8;
      }
      var ext := ExportExtension(fmt);
      var dst := FreshName(existing, outputDir.value, prefix + Stem(src) + suffix, ext);
      var task := BatchWorker.Task(src, dst, watermark, Some(anchor), Some(fmt), Some(90), None);
      return Submitted(task, fontSize);
    }
  }
}
