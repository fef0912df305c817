# PDF merger session, modelled in Dafny

The system is a browser page that merges uploaded PDF files into one document
(merge mode), or builds a new PDF from typed text or from a list of images
(maker mode). Its core is the `PDFMerger` session object in `script.js`. The object holds:

- the ordered list of selected PDFs, with a `(name, size)` duplicate test on every add;
- remove, drag-and-drop reorder and the three sorts (`az`, `za`, `date`);
- the four mutually exclusive merge-mode panels (upload, file list, progress, download);
- the merge pipeline, which loads every file and copies its pages in list order;
- the two maker pipelines: one page of trimmed text, or one page per JPEG or PNG image.

The model is organised as follows:

- `Merger.PDFMerger` is a class with the session's fields. Each method changes exactly
  what the corresponding JavaScript method changes, and keeps the invariant `Valid()`:
  - no two listed files share a name and size;
  - whenever files are listed, the merge button is enabled exactly when there are at least two;
  - the file-list panel is shown only while files are listed;
  - the image button is enabled exactly when images are listed.
- Each loop of the source is a `while` loop. It is proved against a specification
  function:
  - `AddAll` for the dedup loop;
  - `MergeAll` for the merge loop;
  - `ImagePages` for the image loop;
  - `Filter` for the image push loop.
- The lemmas prove what these functions promise.
- The PDF library is a parameter, `Assembly.Library`. Each call that can throw returns
  `None` when it throws.
- A file (`Records.FileRecord`) carries its bytes as well as its name, size, timestamp and
  type. `load` and `embedImage` therefore see the content, so two files with equal metadata
  may load or embed differently. The duplicate test compares only name and size.
- `localeCompare` is a parameter `collate`, where `collate(a, b)` means
  `a.localeCompare(b) <= 0`. The sort lemmas assume it is a total preorder.
- `Array.prototype.sort` is stable. It is specified as insertion sort (`Sorting.SortBy`),
  which keeps ties in their previous order.

Two behaviours of the code worth noting, both modelled as written:
- Removing the last file shows the upload panel but does not clear the merged document
  (`mergedPdfBytes`) (`script.js:141-148`).
- `reset` does not re-render, so it leaves the merge button as it was (`script.js:202-207`).

## Model

| member | source | states |
|---|---|---|
| `Seqs.FilterMembers` | script.js:77 | an element is kept iff it is in the input and passes the test; the result is empty iff no element passes |
| `Seqs.FilterOrder` | script.js:273 | the kept elements appear in their input order (a subsequence of the input) |
| `Seqs.FilterAppend` | script.js:273-274 | filtering two selections one after the other gives the filter of the two together |
| `Seqs.RemoveAt` | script.js:142 | `splice(i, 1)`: one element shorter; the elements before `i` stay, those after shift down by one |
| `Seqs.InsertAt` | script.js:152 | `splice(i, 0, x)`: one element longer, `x` at `i`; the elements before stay and those after shift up |
| `Seqs.RemoveThenInsert` | script.js:151-152 | removing the element at `i` and inserting it back at `i` restores the list |
| `Seqs.InsertThenRemove` | script.js:151-152 | inserting at `i` and removing at `i` restores the list |
| `Seqs.RemoveAtMultiset` | script.js:142 | removal takes out exactly one occurrence of the removed element |
| `Records.BrowserImageCodecs` | script.js:320-324 | of the image types browsers report, `image/jpeg` is embedded as JPEG and `image/png` as PNG, while `image/gif`, `image/webp`, `image/svg+xml` and `image/bmp` get no codec and yield no page |
| `Records.KeyDistinctPermutation` | script.js:150-166 | any rearrangement of a list without repeated `(name, size)` keys has none |
| `FileStore.AddAllAppends` | script.js:83-87 | existing entries stay first and unchanged; only selected files are appended, in selection order |
| `FileStore.AddAllCovers` | script.js:84-85 | afterwards every selected file has an entry with its name and size |
| `FileStore.AddAllKeyDistinct` | script.js:84-85 | adding a selection never creates two entries with the same name and size |
| `FileStore.AddAllPresent` | script.js:84 | a selection whose files all have entries already changes nothing |
| `FileStore.AddAllBatches` | script.js:83-87 | two selections in a row leave the same list as one selection holding both |
| `FileStore.AddAllNonEmpty` | script.js:83-90 | after a non-empty selection the list is not empty (the file list may be shown) |
| `FileStore.AddAllIdempotent` | script.js:83-87 | selecting the same files again is a no-op |
| `FileStore.MoveSpec` | script.js:150-152 | a reorder keeps the length and the multiset; the moved file lands at `to`; removing it from both sides gives the same list |
| `FileStore.MoveBack` | script.js:150-152 | dragging from `to` back to `from` undoes a drag from `from` to `to` |
| `FileStore.MoveKeyDistinct` | script.js:150-152 | a reorder keeps the list free of repeated `(name, size)` keys |
| `FileStore.RemoveAtKeyDistinct` | script.js:142 | removing an entry keeps the list free of repeated keys |
| `Sorting.SortByPermutation` | script.js:159-165 | sorting keeps exactly the same entries (multiset and length) |
| `Sorting.SortBySorted` | script.js:159-165 | with a total preorder the result is ordered: every earlier entry is before-or-tied with every later one |
| `Sorting.SortByStable` | script.js:159-165 | entries the comparator ties keep their previous relative order |
| `Sorting.SortedUnique` | script.js:159-165 | without ties, two sorted arrangements of the same entries are equal |
| `Sorting.SortReversedComparator` | script.js:159-162 | sorting a tie-free sorted list with the swapped comparator reverses it |
| `Sorting.OrderTotalPreorder` | script.js:159-165 | each key's comparator is a total preorder when the collation is one |
| `Sorting.SortFilesOrdered` | script.js:156-167 | `az` gives names non-decreasing under the collation, `za` non-increasing, `date` timestamps non-increasing (most recent first), always a permutation |
| `Sorting.AscendingThenDescendingReverses` | script.js:158-163 | without collation ties, `za` applied to the `az` order gives its exact reverse |
| `Views.ShowOnly` | script.js:209-235 | each `show*View` leaves exactly one panel visible, the requested one |
| `Views.HideEntryPanels` | script.js:253-255 | maker mode hides the upload and file-list panels and leaves progress and download as they were |
| `Text.TrimSpec` | script.js:298 | `trim` drops a whitespace-only prefix and suffix and keeps the rest, which neither starts nor ends with whitespace |
| `Text.TrimEmptyIff` | script.js:298-299 | the trimmed text is empty iff the input consists only of whitespace |
| `Text.TrimIdempotent` | script.js:298 | trimming twice trims nothing more |
| `Assembly.MergeFailsIff` | script.js:177-189 | the merge fails iff some file fails to load; there is no partial result |
| `Assembly.MergeLength` | script.js:177-184 | a successful merge has as many pages as the files have together |
| `Assembly.MergeBlock` | script.js:177-182 | the pages of file `i` appear as one block, in their own order, right after the pages of the files before it |
| `Assembly.MergeLayout` | script.js:177-184 | the whole layout: total length, and every file's pages as one block at its offset |
| `Assembly.MergeTwoFiles` | script.js:177-182 | a two-page file followed by a one-page file gives those three pages in order |
| `Assembly.ImagePagesFailIff` | script.js:317-335 | building from images fails iff an image with a codec fails to embed; images without a codec never cause an error |
| `Assembly.ImagePagesOnePerImage` | script.js:317-330 | one page per image with a codec, the k-th page being the k-th such image embedded with its codec |
| `Assembly.PngThenGif` | script.js:319-329 | a PNG then a GIF give one page, the PNG's, and no error |
| `Merger.PDFMerger.constructor` | script.js:2-9 | empty file and image lists, no merged document, merge mode, only the upload panel shown, both build buttons disabled |
| `Merger.PDFMerger.MergeButtonEnabled` | script.js:138 | while the file list is shown, the merge button is enabled iff at least two files are listed |
| `Merger.PDFMerger.ShowView` | script.js:209-235 | exactly the requested panel is visible afterwards |
| `Merger.PDFMerger.RenderFiles` | script.js:138 | the merge button is disabled iff fewer than two files are listed |
| `Merger.PDFMerger.RenderImages` | script.js:289 | the image button is disabled iff no image is listed |
| `Merger.PDFMerger.HandleFiles` | script.js:76-91 | a selection without PDFs raises the alert and changes nothing; otherwise the list becomes `AddAll` of its PDFs and the file list is shown with the button re-evaluated; `Valid` is kept |
| `Merger.PDFMerger.RemoveFile` | script.js:141-148 | the entry is removed; an emptied list shows the upload panel, otherwise the button is re-evaluated; the merged document is kept |
| `Merger.PDFMerger.ReorderFiles` | script.js:150-154 | the list becomes `Move(files, from, to)` and the button is re-evaluated; `Valid` is kept |
| `Merger.PDFMerger.SortFiles` | script.js:156-169 | a known key sorts the list with its comparator and an unknown one leaves it as it was; the button is re-evaluated in both cases |
| `Merger.PDFMerger.MergePDFs` | script.js:171-190 | if every file loads, the merged document is `MergeAll(files)` and the download panel is shown; otherwise the alert is raised, the previous merged document stays and the file list is shown |
| `Merger.PDFMerger.Reset` | script.js:202-207 | the file list is emptied, the merged document dropped and the upload panel shown |
| `Merger.PDFMerger.SetMode` | script.js:240-257 | merge mode shows only the upload panel and hides the maker; maker mode shows the maker and hides the upload and file-list panels |
| `Merger.PDFMerger.SetMakerMode` | script.js:259-270 | exactly one of the text and image makers is visible, the requested one |
| `Merger.PDFMerger.HandleImages` | script.js:272-276 | the images of the selection are appended in order, without a duplicate test, and the button is re-evaluated |
| `Merger.PDFMerger.RemoveImage` | script.js:292-295 | the image is removed and the button re-evaluated |
| `Merger.PDFMerger.CreateTextPdf` | script.js:297-310 | whitespace-only text raises its alert and changes nothing; a library failure raises the other alert and changes nothing; otherwise the merged document is the single page with the trimmed text and the download panel is shown |
| `Merger.PDFMerger.CreateImagePdf` | script.js:312-336 | no images: nothing happens; otherwise the merged document becomes `ImagePages(images)` with the download panel shown, or on a library failure the alert is raised and nothing changes |

## Left out

- The DOM wiring is not modelled: `initializeElements`, `bindEvents`, the file and image
  cards and their drag handlers, object URLs, titles and the active-button highlighting.
  Only the effects these have on the session fields are modelled: visibility of the panels
  and the enabled state of the two buttons.
- `downloadMergedPDF` is not modelled: it hands the bytes to the browser and changes no state.
- The static file server `server.py` is not part of this model.
- The PDF library's internals are not modelled: parsing, page copying, text placement,
  font size, page size and image scaling. A page is an opaque value.
- `Merger.PDFMerger.MergePDFs`: `PDFDocument.create` and `save` are taken never to fail,
  and `save` is taken to be the document itself. Only a failed read or parse of a file
  leads to the error path.
- `Merger.PDFMerger.CreateTextPdf`: `create`, `addPage` and `save` are taken never to fail
  separately from `drawText`; `Library.drawText` stands for the whole sequence.
- `Merger.PDFMerger.CreateImagePdf`: reading an image's bytes is taken never to fail. In the
  source this read happens even for images without a codec. `create` and `save` are taken
  never to fail as well.
- Asynchrony is not modelled. Each `async` method runs to completion before the next
  operation, so the button-disabling that guards against overlapping runs is not captured.
- `localeCompare` is a parameter; its locale rules are not modelled.
- A drag whose index does not parse (`NaN`) is not modelled. `ReorderFiles` requires both
  indices to lie within the list. Its caller skips equal indices, and the model allows
  them, since the move is then the identity.
- `RemoveFile` and `RemoveImage` require an index within the list. The source is only ever
  called with the index of a rendered card.
- Merging is allowed with fewer than two files, as in the source, which does not check.
  No files gives an empty document; one file gives a copy of it.
- The mode and maker-kind strings are modelled as two-valued types. The page only ever
  passes `'merger'` or `'maker'` to `setMode` and `'text'` or `'image'` to `setMakerMode`
  (`script.js:50-51`, `script.js:54-55`), and these types cover exactly those calls. Any other
  string would make `getElementById` return `null` at `script.js:243` or `script.js:261`,
  and the call would throw before changing any panel; that path is not modelled.
- The methods after the stray closing brace at `script.js:238` are modelled as members of
  the class, as their use of `this` shows was intended.
- The panel and button states before the first operation come from the page markup, which
  is not part of this model. The constructor takes the upload panel shown and both build
  buttons disabled.
