/**
 The list of files waiting to be merged, and the three ways the page changes it:
 a file selection appends the PDFs of the new batch, a move swaps two
 neighbouring entries, and a removal deletes one entry. Each React state
 update is modelled as a map from the previous list to the next one.
 */
module PendingList {

  /** One page of a loaded document. Its content belongs to the PDF library. */
  type Page(==, !new)

  /** A file chosen in the file picker: its name, its declared MIME type and
      the pages the PDF library would find in its bytes. */
  datatype InputFile = InputFile(name: string, mime: string, pages: seq<Page>)

  /** The only type string the selection filter accepts. */
  const PdfMime: string := "application/pdf"

  predicate IsPdf(f: InputFile) {
    f.mime == PdfMime
  }

  /** The invariant of the pending list: every entry is declared as a PDF. */
  predicate AllPdf(files: seq<InputFile>) {
    forall k :: 0 <= k < |files| ==> IsPdf(files[k])
  }

  // ---------------------------------------------------------------------------
  // Selection
  // ---------------------------------------------------------------------------

  /** The batch with every entry whose type is not exactly the PDF type left out. */
  function FilterPdf(batch: seq<InputFile>): (r: seq<InputFile>)
    ensures |r| <= |batch|
    ensures AllPdf(r)
    ensures |r| == |batch| <==> AllPdf(batch)
  {
    if batch == [] then []
    else if IsPdf(batch[0]) then [batch[0]] + FilterPdf(batch[1..])
    else FilterPdf(batch[1..])
  }

  /** A file is kept by the filter exactly when it is in the batch and is a PDF. */
  lemma {:induction false} FilterPdfMembers(batch: seq<InputFile>, f: InputFile)
    ensures f in FilterPdf(batch) <==> f in batch && IsPdf(f)
  {
    if batch != [] {
      FilterPdfMembers(batch[1..], f);
      assert f in batch <==> f == batch[0] || f in batch[1..];
    }
  }

  /** Adds one to every position of a list of positions. */
  function Shifted(idx: seq<nat>): seq<nat>
  {
    seq(|idx|, k requires 0 <= k < |idx| => idx[k] + 1)
  }

  /** The positions of the PDF entries of a batch, ascending. */
  ghost function PdfPositions(batch: seq<InputFile>): seq<nat>
  {
    if batch == [] then []
    else if IsPdf(batch[0]) then [0] + Shifted(PdfPositions(batch[1..]))
    else Shifted(PdfPositions(batch[1..]))
  }

  /** The filter keeps exactly the entries at the PDF positions, in ascending
      order of position: the order of the batch is kept. */
  lemma {:induction false} FilterPdfKeepsOrder(batch: seq<InputFile>)
    ensures var idx := PdfPositions(batch);
      |idx| == |FilterPdf(batch)| &&
      (forall k :: 0 <= k < |idx| ==> idx[k] < |batch| && FilterPdf(batch)[k] == batch[idx[k]]) &&
      (forall k, l :: 0 <= k < l < |idx| ==> idx[k] < idx[l])
  {
    if batch != [] {
      FilterPdfKeepsOrder(batch[1..]);
    }
  }

  /** A position of the batch is among the PDF positions exactly when the entry
      there is a PDF. */
  lemma {:induction false} PdfPositionsExact(batch: seq<InputFile>, j: nat)
    requires j < |batch|
    ensures IsPdf(batch[j]) <==> j in PdfPositions(batch)
  {
    if batch != [] {
      var rest := PdfPositions(batch[1..]);
      var tail := Shifted(rest);
      assert 0 !in tail;
      if j > 0 {
        PdfPositionsExact(batch[1..], j - 1);
        if j in tail {
          var k :| 0 <= k < |tail| && tail[k] == j;
          assert rest[k] == j - 1;
        }
        if j - 1 in rest {
          var k :| 0 <= k < |rest| && rest[k] == j - 1;
          assert tail[k] == j;
        }
      }
    }
  }

  /** Filtering a concatenation of two batches filters each of them. */
  lemma {:induction false} FilterPdfAppend(a: seq<InputFile>, b: seq<InputFile>)
    ensures FilterPdf(a + b) == FilterPdf(a) + FilterPdf(b)
  {
    if a != [] {
      var head := if IsPdf(a[0]) then [a[0]] else [];
      assert (a + b)[0] == a[0];
      assert (a + b)[1..] == a[1..] + b;
      FilterPdfAppend(a[1..], b);
      calc {
        FilterPdf(a + b);
        head + FilterPdf(a[1..] + b);
        head + (FilterPdf(a[1..]) + FilterPdf(b));
        (head + FilterPdf(a[1..])) + FilterPdf(b);
        FilterPdf(a) + FilterPdf(b);
      }
    } else {
      assert a + b == b;
    }
  }

  /** The next list after a selection, and whether the user is warned. */
  datatype Selection = Selection(files: seq<InputFile>, warned: bool)

  /** A selection of a batch of files: the PDFs among them are appended after
      the existing entries, and the warning is raised when the filter dropped
      something. A missing file list from the picker is the empty batch. */
  function Select(prev: seq<InputFile>, batch: seq<InputFile>): (r: Selection)
    ensures |r.files| == |prev| + |FilterPdf(batch)|
    ensures r.files[..|prev|] == prev
    ensures r.files[|prev|..] == FilterPdf(batch)
    ensures r.warned <==> exists k :: 0 <= k < |batch| && !IsPdf(batch[k])
    ensures AllPdf(prev) ==> AllPdf(r.files)
  {
    var pdfFiles := FilterPdf(batch);
    Selection(prev + pdfFiles, |pdfFiles| < |batch|)
  }

  /** Selecting two batches one after the other gives the same list as
      selecting them together, and warns when either selection warns. */
  lemma SelectTwice(prev: seq<InputFile>, a: seq<InputFile>, b: seq<InputFile>)
    ensures Select(Select(prev, a).files, b).files == Select(prev, a + b).files
    ensures Select(prev, a).warned || Select(prev, b).warned <==> Select(prev, a + b).warned
  {
    FilterPdfAppend(a, b);
    AllPdfAppend(a, b);
  }

  lemma AllPdfAppend(a: seq<InputFile>, b: seq<InputFile>)
    ensures AllPdf(a + b) <==> AllPdf(a) && AllPdf(b)
  {
    if AllPdf(a) && AllPdf(b) {
      forall k | 0 <= k < |a + b| ensures IsPdf((a + b)[k]) {
        if k >= |a| { assert (a + b)[k] == b[k - |a|]; }
      }
    }
    if AllPdf(a + b) {
      forall k | 0 <= k < |b| ensures IsPdf(b[k]) { assert (a + b)[|a| + k] == b[k]; }
      forall k | 0 <= k < |a| ensures IsPdf(a[k]) { assert (a + b)[k] == a[k]; }
    }
  }

  // ---------------------------------------------------------------------------
  // Reordering
  // ---------------------------------------------------------------------------

  datatype Direction = Up | Down

  /** The position an entry at `index` is moved to. */
  function Target(index: int, direction: Direction): (t: int)
    ensures t == index - 1 || t == index + 1
    ensures t < index <==> direction == Up
  {
    if direction == Up then index - 1 else index + 1
  }

  /** The reference meaning of a move: the entry at `index` and its neighbour in
      the given direction change places, or nothing happens when there is no
      such neighbour. */
  function Moved(files: seq<InputFile>, index: nat, direction: Direction): seq<InputFile>
    requires index < |files|
  {
    var t := Target(index, direction);
    if t < 0 || t >= |files| then files
    else files[index := files[t]][t := files[index]]
  }

  /** The state update of a move: the list is copied, the entry is cut out at
      `index` and inserted again at the target position; a target outside the
      list returns the previous list. */
  method MoveFile(prev: seq<InputFile>, index: nat, direction: Direction) returns (updated: seq<InputFile>)
    requires index < |prev|
    ensures updated == Moved(prev, index, direction)
  {
    updated := prev;
    var newIndex := Target(index, direction);
    if newIndex < 0 || newIndex >= |updated| {
      return prev;
    }
    var moved := updated[index];
    updated := updated[..index] + updated[index + 1..];
    assert |updated| == |prev| - 1;
    updated := updated[..newIndex] + [moved] + updated[newIndex..];
    assert |updated| == |prev|;
    forall k | 0 <= k < |prev|
      ensures updated[k] == Moved(prev, index, direction)[k]
    {
      if (k < index && k < newIndex) || (k > index && k > newIndex) {
        assert updated[k] == prev[k];
      } else if k == index {
        assert updated[k] == prev[newIndex];
      } else {
        assert updated[k] == prev[index];
      }
    }
  }

  /** A move keeps the length and the multiset of entries, exchanges the two
      positions it involves and leaves every other position as it was. */
  lemma MovedSwaps(files: seq<InputFile>, index: nat, direction: Direction)
    requires index < |files|
    ensures var r := Moved(files, index, direction);
      |r| == |files| && multiset(r) == multiset(files)
    ensures var r, t := Moved(files, index, direction), Target(index, direction);
      0 <= t < |files| ==>
        r[index] == files[t] && r[t] == files[index] &&
        forall k :: 0 <= k < |files| && k != index && k != t ==> r[k] == files[k]
    ensures var t := Target(index, direction);
      !(0 <= t < |files|) ==> Moved(files, index, direction) == files
  {
  }

  /** Moving an entry up and then moving it back down restores the list. */
  lemma MoveUpThenDown(files: seq<InputFile>, i: nat)
    requires 0 < i < |files|
    ensures Moved(Moved(files, i, Up), i - 1, Down) == files
  {
  }

  /** Moving an entry down and then moving it back up restores the list. */
  lemma MoveDownThenUp(files: seq<InputFile>, i: nat)
    requires i + 1 < |files|
    ensures Moved(Moved(files, i, Down), i + 1, Up) == files
  {
  }

  /** A move keeps a list of PDFs a list of PDFs. */
  lemma MovedKeepsAllPdf(files: seq<InputFile>, index: nat, direction: Direction)
    requires index < |files| && AllPdf(files)
    ensures AllPdf(Moved(files, index, direction))
  {
  }

  // ---------------------------------------------------------------------------
  // Removal
  // ---------------------------------------------------------------------------

  /** The state update of a removal: every entry whose position differs from
      `index` is kept, in order. */
  function RemoveFile(prev: seq<InputFile>, index: int): (r: seq<InputFile>)
    ensures 0 <= index < |prev| ==> r == prev[..index] + prev[index + 1..]
    ensures !(0 <= index < |prev|) ==> r == prev
  {
    if prev == [] then []
    else (if index == 0 then [] else [prev[0]]) + RemoveFile(prev[1..], index - 1)
  }

  /** A removal at a position in the list shortens it by one and takes away
      exactly the entry at that position. */
  lemma RemoveFileTakesOne(prev: seq<InputFile>, index: int)
    requires 0 <= index < |prev|
    ensures |RemoveFile(prev, index)| == |prev| - 1
    ensures multiset(RemoveFile(prev, index)) + multiset{prev[index]} == multiset(prev)
  {
    SliceAroundMultiset(prev, index);
  }

  lemma SliceAroundMultiset<T>(s: seq<T>, i: nat)
    requires i < |s|
    ensures multiset(s[..i] + s[i + 1..]) + multiset{s[i]} == multiset(s)
  {
    assert s == s[..i] + [s[i]] + s[i + 1..];
  }

  /** A removal keeps a list of PDFs a list of PDFs. */
  lemma RemoveFileKeepsAllPdf(prev: seq<InputFile>, index: int)
    requires AllPdf(prev)
    ensures AllPdf(RemoveFile(prev, index))
  {
    var r := RemoveFile(prev, index);
    if 0 <= index < |prev| {
      forall k | 0 <= k < |r| ensures IsPdf(r[k]) {
        if k < index { assert r[k] == prev[k]; } else { assert r[k] == prev[k + 1]; }
      }
    }
  }

  // ---------------------------------------------------------------------------
  // Controls
  // ---------------------------------------------------------------------------

  /** The submit button is disabled while fewer than two files are pending. */
  predicate SubmitDisabled(files: seq<InputFile>) {
    |files| < 2
  }

  /** The up button of the entry at position `i` is disabled on the first entry. */
  predicate UpDisabled(i: nat) {
    i == 0
  }

  /** The down button of the entry at position `i` is disabled on the last entry. */
  predicate DownDisabled(files: seq<InputFile>, i: nat) {
    i == |files| - 1
  }

  /** A move button is disabled exactly when the move would do nothing because
      its target lies outside the list. */
  lemma DisabledExactlyWhenOutOfBounds(files: seq<InputFile>, i: nat)
    requires i < |files|
    ensures UpDisabled(i) <==> !(0 <= Target(i, Up) < |files|)
    ensures DownDisabled(files, i) <==> !(0 <= Target(i, Down) < |files|)
    ensures UpDisabled(i) ==> Moved(files, i, Up) == files
    ensures DownDisabled(files, i) ==> Moved(files, i, Down) == files
  {
  }
}
