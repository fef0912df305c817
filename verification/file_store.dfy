/**
 The ordered store of selected PDF files: appending a selection with the
 `(name, size)` duplicate test, and moving one entry to another position
 (the drag-and-drop reorder, a remove followed by an insert).
 */
module FileStore {
  import opened Seqs
  import opened Records

  /** One step of the `forEach`: push `f` unless an entry with its name and size is present. */
  function AddOne(files: seq<FileRecord>, f: FileRecord): seq<FileRecord> {
    if HasSameFile(files, f) then files else files + [f]
  }

  /** The whole `forEach` over the selected PDFs; each test sees the list as it has grown. */
  function AddAll(files: seq<FileRecord>, pdfs: seq<FileRecord>): seq<FileRecord> {
    if pdfs == [] then files else AddOne(AddAll(files, pdfs[..|pdfs| - 1]), pdfs[|pdfs| - 1])
  }

  /** The existing entries stay, unchanged and first; only selected files are appended,
      in the order they were selected. */
  lemma {:induction false} AddAllAppends(files: seq<FileRecord>, pdfs: seq<FileRecord>)
    ensures |files| <= |AddAll(files, pdfs)|
    ensures AddAll(files, pdfs)[..|files|] == files
    ensures forall k :: |files| <= k < |AddAll(files, pdfs)| ==> AddAll(files, pdfs)[k] in pdfs
    ensures IsSubsequence(AddAll(files, pdfs)[|files|..], pdfs)
  {
    if pdfs != [] {
      var init, last := pdfs[..|pdfs| - 1], pdfs[|pdfs| - 1];
      assert pdfs == init + [last];
      AddAllAppends(files, init);
      var before := AddAll(files, init);
      SubsequenceExtend(before[|files|..], init, last);
      if HasSameFile(before, last) {
        assert AddAll(files, pdfs) == before;
      } else {
        var after := before + [last];
        assert AddAll(files, pdfs) == after;
        assert after[..|files|] == before[..|files|];
        assert after[|files|..] == before[|files|..] + [last];
        forall k | |files| <= k < |after| ensures after[k] in pdfs {
          if k < |before| {
            assert after[k] == before[k];
          }
        }
      }
    }
  }

  /** Afterwards every selected file is represented by an entry with its name and size. */
  lemma {:induction false} AddAllCovers(files: seq<FileRecord>, pdfs: seq<FileRecord>)
    ensures forall p :: p in pdfs ==> HasSameFile(AddAll(files, pdfs), p)
  {
    if pdfs != [] {
      var init, last := pdfs[..|pdfs| - 1], pdfs[|pdfs| - 1];
      assert pdfs == init + [last];
      AddAllCovers(files, init);
      var before := AddAll(files, init);
      if !HasSameFile(before, last) {
        var after := before + [last];
        assert SameFile(after[|after| - 1], last);
        forall p | p in init ensures HasSameFile(after, p) {
          var i :| 0 <= i < |before| && SameFile(before[i], p);
          assert after[i] == before[i];
        }
      }
    }
  }

  /** Appending a selection never introduces a second entry for the same name and size. */
  lemma {:induction false} AddAllKeyDistinct(files: seq<FileRecord>, pdfs: seq<FileRecord>)
    requires KeyDistinct(files)
    ensures KeyDistinct(AddAll(files, pdfs))
  {
    if pdfs != [] {
      var init, last := pdfs[..|pdfs| - 1], pdfs[|pdfs| - 1];
      AddAllKeyDistinct(files, init);
      var before := AddAll(files, init);
      if !HasSameFile(before, last) {
        var after := before + [last];
        forall i, j | 0 <= i < j < |after| ensures !SameFile(after[i], after[j]) {
          if j == |before| {
            assert !SameFile(before[i], last);
          }
        }
      }
    }
  }

  /** A selection whose files are all represented already changes nothing. */
  lemma {:induction false} AddAllPresent(files: seq<FileRecord>, pdfs: seq<FileRecord>)
    requires forall p :: p in pdfs ==> HasSameFile(files, p)
    ensures AddAll(files, pdfs) == files
  {
    if pdfs != [] {
      var init, last := pdfs[..|pdfs| - 1], pdfs[|pdfs| - 1];
      assert forall p :: p in init ==> p in pdfs;
      AddAllPresent(files, init);
    }
  }

  /** Two selections in a row leave the same list as one selection holding both. */
  lemma {:induction false} AddAllBatches(files: seq<FileRecord>, a: seq<FileRecord>, b: seq<FileRecord>)
    ensures AddAll(AddAll(files, a), b) == AddAll(files, a + b)
    decreases |b|
  {
    if b == [] {
      assert a + b == a;
    } else {
      var b', y := b[..|b| - 1], b[|b| - 1];
      assert (a + b)[..|a + b| - 1] == a + b';
      assert (a + b)[|a + b| - 1] == y;
      AddAllBatches(files, a, b');
    }
  }

  /** After a non-empty selection the list is not empty. */
  lemma AddAllNonEmpty(files: seq<FileRecord>, pdfs: seq<FileRecord>)
    requires pdfs != []
    ensures AddAll(files, pdfs) != []
  {
    AddAllCovers(files, pdfs);
    assert HasSameFile(AddAll(files, pdfs), pdfs[0]);
  }

  /** Selecting the same files a second time is a no-op. */
  lemma AddAllIdempotent(files: seq<FileRecord>, pdfs: seq<FileRecord>)
    ensures AddAll(AddAll(files, pdfs), pdfs) == AddAll(files, pdfs)
  {
    AddAllCovers(files, pdfs);
    AddAllPresent(AddAll(files, pdfs), pdfs);
  }

  /** `files.splice(from, 1)` then `files.splice(to, 0, moved)`: a move, not a swap. */
  function Move(files: seq<FileRecord>, from: nat, to: nat): seq<FileRecord>
    requires from < |files| && to < |files|
  {
    InsertAt(RemoveAt(files, from), to, files[from])
  }

  /** The moved entry ends at `to`; taking it out again leaves the other entries in their
      old relative order; nothing is gained or lost. */
  lemma MoveSpec(files: seq<FileRecord>, from: nat, to: nat)
    requires from < |files| && to < |files|
    ensures |Move(files, from, to)| == |files|
    ensures Move(files, from, to)[to] == files[from]
    ensures RemoveAt(Move(files, from, to), to) == RemoveAt(files, from)
    ensures multiset(Move(files, from, to)) == multiset(files)
  {
    var rest := RemoveAt(files, from);
    InsertThenRemove(rest, to, files[from]);
    RemoveAtMultiset(files, from);
    RemoveAtMultiset(Move(files, from, to), to);
  }

  /** Dragging the moved entry back to where it came from restores the list. */
  lemma MoveBack(files: seq<FileRecord>, from: nat, to: nat)
    requires from < |files| && to < |files|
    ensures Move(Move(files, from, to), to, from) == files
  {
    MoveSpec(files, from, to);
    RemoveThenInsert(files, from);
  }

  /** A reorder keeps the list free of repeated keys. */
  lemma MoveKeyDistinct(files: seq<FileRecord>, from: nat, to: nat)
    requires from < |files| && to < |files|
    requires KeyDistinct(files)
    ensures KeyDistinct(Move(files, from, to))
  {
    MoveSpec(files, from, to);
    KeyDistinctPermutation(files, Move(files, from, to));
  }

  /** Removing an entry never creates a repeated input. */
  lemma RemoveAtKeyDistinct(files: seq<FileRecord>, i: nat)
    requires i < |files|
    requires KeyDistinct(files)
    ensures KeyDistinct(RemoveAt(files, i))
  {
    var r := RemoveAt(files, i);
    forall p, q | 0 <= p < q < |r| ensures !SameFile(r[p], r[q]) {
      var p' := if p < i then p else p + 1;
      var q' := if q < i then q else q + 1;
      assert r[p] == files[p'] && r[q] == files[q'];
    }
  }
}
