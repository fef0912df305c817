/**
 The input records the session keeps: the browser's `File` objects as the
 session sees them (name, size in bytes, last-modified timestamp and MIME
 type), the kind filters applied on selection, the `(name, size)` identity
 used to drop duplicates, and the codec choice made for images.
 */
module Records {
  import opened Wrappers

  /** A selected file. `mime` is the `File.type` string; `bytes` is the content that
      `arrayBuffer` reads, so two files with equal metadata may still differ. */
  datatype FileRecord = FileRecord(name: string, size: nat, lastModified: int, mime: string, bytes: seq<bv8>)

  /** Image codecs the PDF library can embed. */
  datatype Codec = Jpeg | Png

  const PdfMime: string := "application/pdf"
  const ImagePrefix: string := "image/"

  /** Merge mode accepts a file only when its type is exactly the PDF MIME type. */
  predicate IsPdf(f: FileRecord) {
    f.mime == PdfMime
  }

  /** `String.prototype.startsWith`. */
  predicate StartsWith(s: string, prefix: string) {
    |prefix| <= |s| && s[..|prefix|] == prefix
  }

  /** `part` occurs in `s` starting at index `i`. */
  predicate IsAt(s: string, part: string, i: int)
    requires 0 <= i <= |s| - |part|
  {
    s[i..i + |part|] == part
  }

  /** `String.prototype.includes`. */
  predicate Contains(s: string, part: string) {
    exists i :: 0 <= i <= |s| - |part| && IsAt(s, part, i)
  }

  /** Maker mode accepts any file whose type starts with `image/`. */
  predicate IsImage(f: FileRecord) {
    StartsWith(f.mime, ImagePrefix)
  }

  /** Two files are the same input when name and size agree; the timestamp plays no part. */
  predicate SameFile(a: FileRecord, b: FileRecord) {
    a.name == b.name && a.size == b.size
  }

  /** `files.some(f => f.name === file.name && f.size === file.size)`. */
  predicate HasSameFile(files: seq<FileRecord>, f: FileRecord) {
    exists i :: 0 <= i < |files| && SameFile(files[i], f)
  }

  /** No two entries of the list are the same input. */
  ghost predicate KeyDistinct(files: seq<FileRecord>) {
    forall i, j :: 0 <= i < j < |files| ==> !SameFile(files[i], files[j])
  }

  /** The embedder chosen from the declared type: a type mentioning `jpeg` or `jpg` is
      embedded as JPEG, otherwise one mentioning `png` as PNG, and anything else has none. */
  function CodecOf(mime: string): Option<Codec> {
    if Contains(mime, "jpeg") || Contains(mime, "jpg") then Some(Jpeg)
    else if Contains(mime, "png") then Some(Png)
    else None
  }

  /** `part` does not occur in `s` when no position where it could start holds its first
      character. */
  lemma Absent(s: string, part: string)
    requires part != []
    requires forall i :: 0 <= i <= |s| - |part| ==> s[i] != part[0]
    ensures !Contains(s, part)
  {
    forall i | 0 <= i <= |s| - |part| ensures !IsAt(s, part, i) {
      assert s[i..i + |part|][0] == s[i];
    }
  }

  /** How the image types browsers report are classified: JPEG and PNG get their codec;
      GIF, WebP, SVG and BMP get none, so they yield no page. */
  lemma BrowserImageCodecs()
    ensures CodecOf("image/jpeg") == Some(Jpeg)
    ensures CodecOf("image/png") == Some(Png)
    ensures CodecOf("image/gif") == None
    ensures CodecOf("image/webp") == None
    ensures CodecOf("image/svg+xml") == None
    ensures CodecOf("image/bmp") == None
  {
    assert IsAt("image/jpeg", "jpeg", 6);
    Absent("image/png", "jpeg");
    Absent("image/png", "jpg");
    assert IsAt("image/png", "png", 6);
    Absent("image/gif", "jpeg");
    Absent("image/gif", "jpg");
    Absent("image/gif", "png");
    Absent("image/webp", "jpeg");
    Absent("image/webp", "jpg");
    Absent("image/webp", "png");
    Absent("image/svg+xml", "jpeg");
    Absent("image/svg+xml", "jpg");
    Absent("image/svg+xml", "png");
    Absent("image/bmp", "jpeg");
    Absent("image/bmp", "jpg");
    Absent("image/bmp", "png");
  }

  /** An image that yields a page: one with a codec. */
  predicate Embeddable(f: FileRecord) {
    CodecOf(f.mime).Some?
  }

  /** A list without repeated inputs has no value twice. */
  lemma {:induction false} KeyDistinctCount(files: seq<FileRecord>, x: FileRecord)
    requires KeyDistinct(files)
    ensures multiset(files)[x] <= 1
  {
    if files != [] {
      var init, last := files[..|files| - 1], files[|files| - 1];
      assert files == init + [last];
      assert KeyDistinct(init);
      KeyDistinctCount(init, x);
      assert forall k :: 0 <= k < |init| ==> !SameFile(files[k], files[|files| - 1]);
      assert last !in init;
    }
  }

  /** Reordering never creates a repeated input: any permutation of a list without
      repeats has none. */
  lemma KeyDistinctPermutation(a: seq<FileRecord>, b: seq<FileRecord>)
    requires KeyDistinct(a)
    requires multiset(a) == multiset(b)
    ensures KeyDistinct(b)
  {
    forall i, j | 0 <= i < j < |b| ensures !SameFile(b[i], b[j]) {
      var x := b[i];
      assert b == b[..j] + [b[j]] + b[j + 1..];
      assert x in b[..j];
      assert multiset(b)[x] == multiset(b[..j])[x] + multiset{b[j]}[x] + multiset(b[j + 1..])[x];
      KeyDistinctCount(a, x);
      assert b[j] != x;
      assert b[i] in multiset(a) && b[j] in multiset(a);
      var p :| 0 <= p < |a| && a[p] == b[i];
      var q :| 0 <= q < |a| && a[q] == b[j];
      if p < q {
        assert !SameFile(a[p], a[q]);
      } else {
        assert !SameFile(a[q], a[p]);
      }
    }
  }
}
