/**
 The assembly pipelines, with the PDF library as a collaborator that is only
 called: a document is its sequence of pages, and every library call that can
 throw returns `None` when it does.
 */
module Assembly {
  import opened Wrappers
  import opened Seqs
  import opened Records

  /** A page as the library hands it back; its content is opaque here. */
  datatype Page = Page(content: seq<bv8>)

  type Document = seq<Page>

  /** The library calls the session makes.
      `load`: read the file's bytes and parse them as a PDF (`arrayBuffer` then `PDFDocument.load`).
      `drawText`: a fresh page with the text drawn on it (`addPage` then `drawText`).
      `embedImage`: a fresh page showing the image (`embedJpg` or `embedPng`, `addPage`, `drawImage`). */
  datatype Library = Library(
    load: FileRecord -> Option<Document>,
    drawText: string -> Option<Page>,
    embedImage: (FileRecord, Codec) -> Option<Page>)

  /** The merge loop: every file's pages, copied in their own order, appended in list
      order; the first file that fails to load aborts the whole run. */
  function MergeAll(lib: Library, files: seq<FileRecord>): Option<Document> {
    if files == [] then Some([])
    else match MergeAll(lib, files[..|files| - 1])
      case None => None
      case Some(doc) =>
        match lib.load(files[|files| - 1])
        case None => None
        case Some(pages) => Some(doc + pages)
  }

  /** The number of pages the files contribute (a file that fails contributes none). */
  function PageCount(lib: Library, files: seq<FileRecord>): nat {
    if files == [] then 0
    else PageCount(lib, files[..|files| - 1])
         + match lib.load(files[|files| - 1]) case None => 0 case Some(pages) => |pages|
  }

  /** A merge fails exactly when some file fails to load: no partial result exists. */
  lemma {:induction false} MergeFailsIff(lib: Library, files: seq<FileRecord>)
    ensures MergeAll(lib, files).None? <==> exists i :: 0 <= i < |files| && lib.load(files[i]).None?
  {
    if files != [] {
      var init := files[..|files| - 1];
      MergeFailsIff(lib, init);
      assert forall i :: 0 <= i < |init| ==> init[i] == files[i];
    }
  }

  /** Where the pages of `files[i]` start in the merged document. */
  function Offset(lib: Library, files: seq<FileRecord>, i: nat): nat
    requires i <= |files|
  {
    PageCount(lib, files[..i])
  }

  lemma {:induction false} MergeLength(lib: Library, files: seq<FileRecord>)
    requires MergeAll(lib, files).Some?
    ensures |MergeAll(lib, files).value| == PageCount(lib, files)
  {
    if files != [] {
      MergeLength(lib, files[..|files| - 1]);
    }
  }

  lemma {:induction false} MergeBlock(lib: Library, files: seq<FileRecord>, i: nat)
    requires MergeAll(lib, files).Some?
    requires i < |files|
    ensures lib.load(files[i]).Some?
    ensures Offset(lib, files, i) + |lib.load(files[i]).value| <= |MergeAll(lib, files).value|
    ensures MergeAll(lib, files).value[Offset(lib, files, i)..Offset(lib, files, i) + |lib.load(files[i]).value|]
            == lib.load(files[i]).value
  {
    var n := |files|;
    var init := files[..n - 1];
    var before := MergeAll(lib, init).value;
    var doc := MergeAll(lib, files).value;
    assert doc == before + lib.load(files[n - 1]).value;
    MergeLength(lib, init);
    if i == n - 1 {
      assert files[..i] == init;
    } else {
      MergeBlock(lib, init, i);
      assert files[..i] == init[..i];
      assert init[i] == files[i];
    }
  }

  /** A successful merge holds every file's pages, each file's as one block in the file's
      own page order starting where the pages of the files before it end, and nothing else. */
  lemma MergeLayout(lib: Library, files: seq<FileRecord>)
    requires MergeAll(lib, files).Some?
    ensures |MergeAll(lib, files).value| == PageCount(lib, files)
    ensures forall i :: 0 <= i < |files| ==>
      && lib.load(files[i]).Some?
      && Offset(lib, files, i) + |lib.load(files[i]).value| <= |MergeAll(lib, files).value|
      && MergeAll(lib, files).value[Offset(lib, files, i)..Offset(lib, files, i) + |lib.load(files[i]).value|]
         == lib.load(files[i]).value
  {
    MergeLength(lib, files);
    forall i | 0 <= i < |files|
      ensures lib.load(files[i]).Some?
      ensures Offset(lib, files, i) + |lib.load(files[i]).value| <= |MergeAll(lib, files).value|
      ensures MergeAll(lib, files).value[Offset(lib, files, i)..Offset(lib, files, i) + |lib.load(files[i]).value|]
              == lib.load(files[i]).value
    {
      MergeBlock(lib, files, i);
    }
  }

  /** Two files of two pages and one page merge into those three pages in order. */
  lemma MergeTwoFiles(lib: Library, a: FileRecord, b: FileRecord, a1: Page, a2: Page, b1: Page)
    requires lib.load(a) == Some([a1, a2]) && lib.load(b) == Some([b1])
    ensures MergeAll(lib, [a, b]) == Some([a1, a2, b1])
  {
    assert [a, b][..1] == [a];
    assert [a][..0] == [];
    assert MergeAll(lib, []) == Some([]);
    assert [] + [a1, a2] == [a1, a2];
    assert MergeAll(lib, [a]) == Some([a1, a2]);
    assert [a1, a2] + [b1] == [a1, a2, b1];
  }

  /** The image loop: one page per image with a codec, in list order; an image without one
      is skipped; the first embedding that throws aborts the whole run. */
  function ImagePages(lib: Library, images: seq<FileRecord>): Option<Document> {
    if images == [] then Some([])
    else match ImagePages(lib, images[..|images| - 1])
      case None => None
      case Some(doc) =>
        var image := images[|images| - 1];
        match CodecOf(image.mime)
        case None => Some(doc)
        case Some(codec) =>
          match lib.embedImage(image, codec)
          case None => None
          case Some(page) => Some(doc + [page])
  }

  /** `image` has a codec and embedding it throws. */
  predicate EmbedFails(lib: Library, image: FileRecord) {
    match CodecOf(image.mime)
    case None => false
    case Some(codec) => lib.embedImage(image, codec).None?
  }

  /** Building from images fails exactly when an image with a codec fails to embed; images
      without a codec never cause an error. */
  lemma {:induction false} ImagePagesFailIff(lib: Library, images: seq<FileRecord>)
    ensures ImagePages(lib, images).None? <==> exists i :: 0 <= i < |images| && EmbedFails(lib, images[i])
  {
    if images != [] {
      var init := images[..|images| - 1];
      ImagePagesFailIff(lib, init);
      assert forall i :: 0 <= i < |init| ==> init[i] == images[i];
    }
  }

  /** `image` has a codec and embedding it with that codec gives `page`. */
  predicate EmbedsTo(lib: Library, image: FileRecord, page: Page) {
    match CodecOf(image.mime)
    case None => false
    case Some(codec) => lib.embedImage(image, codec) == Some(page)
  }

  /** A successful run has exactly one page per image with a codec, the k-th page being
      the k-th such image embedded with its codec. */
  lemma {:induction false} ImagePagesOnePerImage(lib: Library, images: seq<FileRecord>)
    requires ImagePages(lib, images).Some?
    ensures |ImagePages(lib, images).value| == |Filter(images, Embeddable)|
    ensures forall k :: 0 <= k < |Filter(images, Embeddable)| ==>
      EmbedsTo(lib, Filter(images, Embeddable)[k], ImagePages(lib, images).value[k])
  {
    if images != [] {
      var init, image := images[..|images| - 1], images[|images| - 1];
      ImagePagesOnePerImage(lib, init);
      var before, kept := ImagePages(lib, init).value, Filter(init, Embeddable);
      if Embeddable(image) {
        var page := lib.embedImage(image, CodecOf(image.mime).value).value;
        assert ImagePages(lib, images).value == before + [page];
        assert Filter(images, Embeddable) == kept + [image];
      } else {
        assert ImagePages(lib, images).value == before;
        assert Filter(images, Embeddable) == kept;
      }
    }
  }

  /** A PNG followed by a GIF gives a single page, the PNG's, and no error. */
  lemma PngThenGif(lib: Library, png: FileRecord, gif: FileRecord, page: Page)
    requires png.mime == "image/png" && gif.mime == "image/gif"
    requires lib.embedImage(png, Png) == Some(page)
    ensures ImagePages(lib, [png, gif]) == Some([page])
  {
    assert IsAt(png.mime, "png", 6);
    assert forall i :: 0 <= i < |png.mime| ==> png.mime[i] != 'j';
    assert forall i :: 0 <= i < |gif.mime| ==> gif.mime[i] != 'j' && gif.mime[i] != 'p';
    assert !Contains(png.mime, "jpeg") && !Contains(png.mime, "jpg") by {
      forall i | 0 <= i <= |png.mime| - 3 ensures !IsAt(png.mime, "jpg", i) {
        assert png.mime[i] != "jpg"[0];
      }
      forall i | 0 <= i <= |png.mime| - 4 ensures !IsAt(png.mime, "jpeg", i) {
        assert png.mime[i] != "jpeg"[0];
      }
    }
    assert CodecOf(gif.mime) == None by {
      forall i | 0 <= i <= |gif.mime| - 3 ensures !IsAt(gif.mime, "jpg", i) && !IsAt(gif.mime, "png", i) {
        assert gif.mime[i] != "jpg"[0] && gif.mime[i] != "png"[0];
      }
      forall i | 0 <= i <= |gif.mime| - 4 ensures !IsAt(gif.mime, "jpeg", i) {
        assert gif.mime[i] != "jpeg"[0];
      }
    }
    assert [png, gif][..1] == [png];
    assert [png][..0] == [];
    assert ImagePages(lib, []) == Some([]);
    assert [] + [page] == [page];
    assert ImagePages(lib, [png]) == Some([page]);
  }
}
