/**
 The `PDFMerger` session object: the file list and image list it keeps, the
 merged document, the panel visibility, the enabled state of the two build
 buttons, and the operations the page's controls call on it.
 */
module Merger {
  import opened Wrappers
  import opened Seqs
  import opened Records
  import opened FileStore
  import opened Sorting
  import opened Views
  import opened Text
  import opened Assembly

  /** `currentMode`. */
  datatype Mode = MergerMode | MakerMode

  /** The two maker sub-panels chosen by `setMakerMode`. */
  datatype MakerKind = TextMaker | ImageMaker

  /** The messages the session raises with `alert`. */
  datatype Alert =
    | NoPdfSelected   // 'Please select PDF files only.'
    | MergeError      // 'Error merging PDFs: ...'
    | EmptyText       // 'Please enter some text.'
    | CreateError     // 'Error creating PDF'

  class PDFMerger {
    var files: seq<FileRecord>
    var images: seq<FileRecord>
    /** `mergedPdfBytes`: the saved document, `None` for `null`. */
    var mergedPdf: Option<Document>
    var mode: Mode
    /** Visibility of the four merge-mode panels. */
    var panels: Panels
    var makerVisible: bool
    var textMakerVisible: bool
    var imageMakerVisible: bool
    /** `!mergeBtn.disabled`. */
    var mergeEnabled: bool
    /** `!createImagePdf.disabled`. */
    var createImageEnabled: bool

    /** What every operation keeps: no two files with the same name and size; the merge
        button enabled exactly when two or more files are listed, whenever any are; the
        file-list panel shown only while files are listed; the image button enabled
        exactly when images are listed. */
    ghost predicate Valid()
      reads this
    {
      && KeyDistinct(files)
      && (|files| > 0 ==> (mergeEnabled <==> |files| >= 2))
      && (panels.files ==> |files| > 0)
      && (createImageEnabled <==> |images| > 0)
    }

    /** A fresh session. The initial visibility and button states are those of the page
        markup, which is not part of this model: upload panel shown, maker hidden with its
        text option selected, both build buttons disabled. */
    constructor ()
      ensures Valid()
      ensures files == [] && images == [] && mergedPdf == None && mode == MergerMode
      ensures panels == ShowOnly(Upload) && !makerVisible
      ensures !mergeEnabled && !createImageEnabled
    {
      files := [];
      images := [];
      mergedPdf := None;
      mode := MergerMode;
      panels := ShowOnly(Upload);
      makerVisible := false;
      textMakerVisible := true;
      imageMakerVisible := false;
      mergeEnabled := false;
      createImageEnabled := false;
    }

    /** The merge button as the user sees it: while the file list is shown it is enabled
        exactly when at least two files are listed. */
    predicate MergeButtonEnabled()
      reads this
      requires Valid()
      ensures panels.files ==> (MergeButtonEnabled() <==> |files| >= 2)
    {
      mergeEnabled
    }

    /** The four `show*View` methods. */
    method ShowView(v: View)
      modifies this`panels
      ensures panels == ShowOnly(v)
      ensures Visible(panels) == {v}
    {
      panels := ShowOnly(v);
    }

    /** The last statement of `renderFiles`; the cards it builds are presentation only. */
    method RenderFiles()
      modifies this`mergeEnabled
      ensures mergeEnabled == (|files| >= 2)
    {
      mergeEnabled := |files| >= 2;
    }

    /** The last statement of `renderImages`. */
    method RenderImages()
      modifies this`createImageEnabled
      ensures createImageEnabled == (|images| > 0)
    {
      createImageEnabled := |images| > 0;
    }

    /** `handleFiles`: keep the PDFs of the selection; with none, alert and change nothing;
        otherwise append each PDF whose name and size are not yet listed and show the list. */
    method HandleFiles(selection: seq<FileRecord>) returns (alert: Option<Alert>)
      requires Valid()
      modifies this`files, this`mergeEnabled, this`panels
      ensures Valid()
      ensures alert == Some(NoPdfSelected) <==> forall i :: 0 <= i < |selection| ==> !IsPdf(selection[i])
      ensures alert.Some? ==> alert == Some(NoPdfSelected)
      ensures alert.Some? ==> unchanged(this)
      ensures alert.None? ==> files == AddAll(old(files), Filter(selection, IsPdf))
      ensures alert.None? ==> panels == ShowOnly(Files) && mergeEnabled == (|files| >= 2)
    {
      var pdfs := Filter(selection, IsPdf);
      if |pdfs| == 0 {
        FilterMembers(selection, IsPdf);
        return Some(NoPdfSelected);
      }
      ghost var start := files;
      var i := 0;
      while i < |pdfs|
        modifies this`files
        invariant 0 <= i <= |pdfs|
        invariant files == AddAll(start, pdfs[..i])
      {
        assert pdfs[..i + 1][..i] == pdfs[..i];
        if !HasSameFile(files, pdfs[i]) {
          files := files + [pdfs[i]];
        }
        i := i + 1;
      }
      assert pdfs[..i] == pdfs;
      FilterMembers(selection, IsPdf);
      AddAllKeyDistinct(start, pdfs);
      AddAllNonEmpty(start, pdfs);
      RenderFiles();
      ShowView(Files);
      return None;
    }

    /** `removeFile`: drop the entry at `index`; an emptied list shows the upload panel,
        otherwise the list is re-rendered. The merged document is kept either way. */
    method RemoveFile(index: nat)
      requires Valid()
      requires index < |files|
      modifies this`files, this`mergeEnabled, this`panels
      ensures Valid()
      ensures files == RemoveAt(old(files), index)
      ensures files == [] ==> panels == ShowOnly(Upload) && mergeEnabled == old(mergeEnabled)
      ensures files != [] ==> panels == old(panels) && mergeEnabled == (|files| >= 2)
    {
      RemoveAtKeyDistinct(files, index);
      files := RemoveAt(files, index);
      if |files| == 0 {
        ShowView(Upload);
      } else {
        RenderFiles();
      }
    }

    /** `reorderFiles`: take the entry at `from` out and insert it so that it lands at `to`. */
    method ReorderFiles(from: nat, to: nat)
      requires Valid()
      requires from < |files| && to < |files|
      modifies this`files, this`mergeEnabled
      ensures Valid()
      ensures files == Move(old(files), from, to)
      ensures mergeEnabled == (|files| >= 2)
    {
      ghost var before := files;
      MoveKeyDistinct(before, from, to);
      var moved := files[from];
      files := RemoveAt(files, from);
      files := InsertAt(files, to, moved);
      assert files == Move(before, from, to);
      RenderFiles();
    }

    /** `sortFiles`: sort by the key `kind` names, with `collate(a, b)` standing for
        `a.localeCompare(b) <= 0`; any other `kind` leaves the order as it is. The list is
        re-rendered in every case. */
    method SortFiles(kind: string, collate: (string, string) -> bool)
      requires Valid()
      modifies this`files, this`mergeEnabled
      ensures Valid()
      ensures ParseSortKey(kind).None? ==> files == old(files)
      ensures ParseSortKey(kind).Some? ==> files == SortBy(old(files), Order(ParseSortKey(kind).value, collate))
      ensures mergeEnabled == (|files| >= 2)
    {
      match ParseSortKey(kind) {
        case None =>
        case Some(key) =>
          var sorted := SortBy(files, Order(key, collate));
          SortByPermutation(files, Order(key, collate));
          KeyDistinctPermutation(files, sorted);
          files := sorted;
      }
      RenderFiles();
    }

    /** `mergePDFs`: show the progress panel, then load the files one after another and
        append each one's pages. If every file loads, the result becomes the merged document
        and the download panel is shown; if one fails, the partial result is dropped, the
        previous merged document stays, the alert is raised and the file list is shown. */
    method MergePDFs(lib: Library) returns (alert: Option<Alert>)
      requires Valid()
      modifies this`mergedPdf, this`panels
      ensures Valid()
      ensures MergeAll(lib, files).Some? ==>
        alert == None && mergedPdf == MergeAll(lib, files) && panels == ShowOnly(Download)
      ensures MergeAll(lib, files).None? ==>
        alert == Some(MergeError) && mergedPdf == old(mergedPdf) && panels == ShowOnly(Files)
    {
      ShowView(Loading);
      var merged: Document := [];
      var failed := false;
      var i := 0;
      while i < |files| && !failed
        invariant 0 <= i <= |files|
        invariant !failed ==> MergeAll(lib, files[..i]) == Some(merged)
        invariant failed ==> MergeAll(lib, files).None?
        invariant mergedPdf == old(mergedPdf) && files == old(files)
        decreases |files| - i, if failed then 0 else 1
      {
        var loaded := lib.load(files[i]);
        if loaded.None? {
          MergeFailsIff(lib, files);
          failed := true;
        } else {
          var pages := loaded.value;
          ghost var before := merged;
          var j := 0;
          while j < |pages|
            invariant 0 <= j <= |pages|
            invariant merged == before + pages[..j]
          {
            merged := merged + [pages[j]];
            j := j + 1;
          }
          assert pages[..j] == pages;
          assert files[..i + 1][..i] == files[..i];
          i := i + 1;
        }
      }
      if failed {
        ShowView(Files);
        return Some(MergeError);
      }
      assert files[..i] == files;
      mergedPdf := Some(merged);
      ShowView(Download);
      return None;
    }

    /** `reset`: empty the file list, drop the merged document and show the upload panel.
        The image list, the mode and the merge button's state are left as they are. */
    method Reset()
      requires Valid()
      modifies this`files, this`mergedPdf, this`panels
      ensures Valid()
      ensures files == [] && mergedPdf == None && panels == ShowOnly(Upload)
    {
      files := [];
      mergedPdf := None;
      ShowView(Upload);
    }

    /** `setMode`: merge mode shows the upload panel and hides the maker; maker mode shows
        the maker and hides the upload and file-list panels only. */
    method SetMode(m: Mode)
      requires Valid()
      modifies this`mode, this`panels, this`makerVisible
      ensures Valid()
      ensures mode == m && makerVisible == (m == MakerMode)
      ensures m == MergerMode ==> panels == ShowOnly(Upload)
      ensures m == MakerMode ==> panels == HideEntryPanels(old(panels))
    {
      mode := m;
      if m == MergerMode {
        ShowView(Upload);
        makerVisible := false;
      } else {
        makerVisible := true;
        panels := HideEntryPanels(panels);
      }
    }

    /** `setMakerMode`: exactly one of the text and image sub-panels is visible. */
    method SetMakerMode(kind: MakerKind)
      requires Valid()
      modifies this`textMakerVisible, this`imageMakerVisible
      ensures Valid()
      ensures textMakerVisible == (kind == TextMaker)
      ensures imageMakerVisible == (kind == ImageMaker)
    {
      textMakerVisible := kind == TextMaker;
      imageMakerVisible := !textMakerVisible;
    }

    /** `handleImages`: append every selected file whose type starts with `image/`, in
        order, with no duplicate check, and re-render. */
    method HandleImages(selection: seq<FileRecord>)
      requires Valid()
      modifies this`images, this`createImageEnabled
      ensures Valid()
      ensures images == old(images) + Filter(selection, IsImage)
    {
      var picked := Filter(selection, IsImage);
      ghost var start := images;
      var i := 0;
      while i < |picked|
        modifies this`images
        invariant 0 <= i <= |picked|
        invariant images == start + picked[..i]
      {
        images := images + [picked[i]];
        i := i + 1;
      }
      assert picked[..i] == picked;
      RenderImages();
    }

    /** `removeImage`: drop the image at `index` and re-render. */
    method RemoveImage(index: nat)
      requires Valid()
      requires index < |images|
      modifies this`images, this`createImageEnabled
      ensures Valid()
      ensures images == RemoveAt(old(images), index)
    {
      images := RemoveAt(images, index);
      RenderImages();
    }

    /** `createTextPdf`: trim the text; whitespace only raises the alert and changes
        nothing; otherwise a one-page document with the trimmed text drawn on it becomes the
        merged document and the download panel is shown. A library failure raises its
        alert and changes nothing. */
    method CreateTextPdf(text: string, lib: Library) returns (alert: Option<Alert>)
      requires Valid()
      modifies this`mergedPdf, this`panels
      ensures Valid()
      ensures alert == Some(EmptyText) <==> AllWhitespace(text)
      ensures alert.Some? ==> mergedPdf == old(mergedPdf) && panels == old(panels)
      ensures alert == Some(CreateError) <==> !AllWhitespace(text) && lib.drawText(Trim(text)).None?
      ensures alert.None? ==> mergedPdf == Some([lib.drawText(Trim(text)).value]) && panels == ShowOnly(Download)
    {
      var trimmed := Trim(text);
      TrimEmptyIff(text);
      if trimmed == [] {
        return Some(EmptyText);
      }
      var page := lib.drawText(trimmed);
      if page.None? {
        return Some(CreateError);
      }
      mergedPdf := Some([page.value]);
      ShowView(Download);
      return None;
    }

    /** `createImagePdf`: with no images, do nothing. Otherwise embed the images one after
        another, one page each, skipping those without a codec; on success the document
        becomes the merged document and the download panel is shown, on a library failure
        the alert is raised and nothing changes. */
    method CreateImagePdf(lib: Library) returns (alert: Option<Alert>)
      requires Valid()
      modifies this`mergedPdf, this`panels
      ensures Valid()
      ensures images == [] ==> alert == None && unchanged(this)
      ensures images != [] && ImagePages(lib, images).Some? ==>
        alert == None && mergedPdf == ImagePages(lib, images) && panels == ShowOnly(Download)
      ensures images != [] && ImagePages(lib, images).None? ==>
        alert == Some(CreateError) && unchanged(this)
    {
      if |images| == 0 {
        return None;
      }
      var doc: Document := [];
      var failed := false;
      var i := 0;
      while i < |images| && !failed
        invariant 0 <= i <= |images|
        invariant !failed ==> ImagePages(lib, images[..i]) == Some(doc)
        invariant failed ==> ImagePages(lib, images).None?
        invariant unchanged(this)
        decreases |images| - i, if failed then 0 else 1
      {
        var image := images[i];
        assert images[..i + 1][..i] == images[..i];
        match CodecOf(image.mime) {
          case None =>
          case Some(codec) =>
            var page := lib.embedImage(image, codec);
            if page.None? {
              ImagePagesFailIff(lib, images);
              assert EmbedFails(lib, images[i]);
              failed := true;
            } else {
              doc := doc + [page.value];
            }
        }
        if !failed {
          i := i + 1;
        }
      }
      if failed {
        return Some(CreateError);
      }
      assert images[..i] == images;
      mergedPdf := Some(doc);
      ShowView(Download);
      return None;
    }
  }
}
