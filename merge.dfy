/**
 The merge: refused when fewer than two files are pending, otherwise every page
 of every pending file is appended to one new output document, file by file in
 list order and page by page in each file's own order. A document is modelled
 only by its sequence of pages.
 */
module Merge {
  import opened PendingList

  /** The pages of all the given files, in list order and then page order. */
  function ConcatPages(files: seq<InputFile>): seq<Page>
  {
    if files == [] then []
    else ConcatPages(files[..|files| - 1]) + files[|files| - 1].pages
  }

  /** The sum of the page counts of the given files. */
  function TotalPages(files: seq<InputFile>): nat
  {
    if files == [] then 0 else |files[0].pages| + TotalPages(files[1..])
  }

  /** Concatenating the pages of two lists of files one after the other gives
      the pages of the joined list. */
  lemma {:induction false} ConcatPagesAppend(a: seq<InputFile>, b: seq<InputFile>)
    ensures ConcatPages(a + b) == ConcatPages(a) + ConcatPages(b)
    decreases |b|
  {
    if b == [] {
      assert a + b == a;
    } else {
      var ab := a + b;
      assert ab[..|ab| - 1] == a + b[..|b| - 1];
      assert ab[|ab| - 1] == b[|b| - 1];
      ConcatPagesAppend(a, b[..|b| - 1]);
    }
  }

  /** The output has as many pages as the inputs together. */
  lemma {:induction false} ConcatPagesLength(files: seq<InputFile>)
    ensures |ConcatPages(files)| == TotalPages(files)
  {
    if files != [] {
      ConcatPagesLength(files[1..]);
      assert files == [files[0]] + files[1..];
      ConcatPagesCons(files[0], files[1..]);
    }
  }

  /** The output of a list starts with the pages of its first file. */
  lemma ConcatPagesCons(f: InputFile, rest: seq<InputFile>)
    ensures ConcatPages([f] + rest) == f.pages + ConcatPages(rest)
  {
    ConcatPagesAppend([f], rest);
    assert [f][..0] == [];
  }

  /** Where the pages of the input at position `i` begin in the output. */
  function Offset(files: seq<InputFile>, i: nat): nat
    requires i <= |files|
  {
    TotalPages(files[..i])
  }

  /** Page `j` of input `i` is page `Offset(files, i) + j` of the output. */
  lemma PageOfInput(files: seq<InputFile>, i: nat, j: nat)
    requires i < |files| && j < |files[i].pages|
    ensures Offset(files, i) + j < |ConcatPages(files)|
    ensures ConcatPages(files)[Offset(files, i) + j] == files[i].pages[j]
  {
    var before, rest := files[..i], files[i..];
    assert files == before + rest;
    ConcatPagesAppend(before, rest);
    assert rest == [files[i]] + rest[1..];
    ConcatPagesCons(files[i], rest[1..]);
    ConcatPagesLength(before);
    var tail := files[i].pages + ConcatPages(rest[1..]);
    assert ConcatPages(files) == ConcatPages(before) + tail;
    assert tail[j] == files[i].pages[j];
  }

  /** What the user gets from the submit action: the insufficient-count notice,
      or the pages of the output document. */
  datatype MergeOutcome = TooFewFiles | Merged(pages: seq<Page>)

  /** The submit handler. The notice is given exactly when the submit control
      is disabled; otherwise the output holds the pages of all inputs. */
  method MergePdfs(files: seq<InputFile>) returns (outcome: MergeOutcome)
    ensures outcome.TooFewFiles? <==> SubmitDisabled(files)
    ensures outcome.Merged? ==> outcome.pages == ConcatPages(files)
  {
    if |files| < 2 {
      return TooFewFiles;
    }
    var mergedPdf: seq<Page> := [];
    for i := 0 to |files|
      invariant mergedPdf == ConcatPages(files[..i])
    {
      var copiedPages := files[i].pages;
      for j := 0 to |copiedPages|
        invariant mergedPdf == ConcatPages(files[..i]) + copiedPages[..j]
      {
        mergedPdf := mergedPdf + [copiedPages[j]];
      }
      assert copiedPages[..|copiedPages|] == copiedPages;
      assert files[..i + 1][..i] == files[..i];
    }
    assert files[..|files|] == files;
    return Merged(mergedPdf);
  }

  /** Two files A and B: the merge puts A's pages before B's; after B is moved
      up, the merge puts B's pages first. */
  lemma MoveChangesMergeOrder(a: InputFile, b: InputFile)
    ensures ConcatPages([a, b]) == a.pages + b.pages
    ensures ConcatPages(Moved([a, b], 1, Up)) == b.pages + a.pages
  {
    assert [a, b][..1] == [a] && [a][..0] == [];
    assert ConcatPages([a]) == [] + a.pages;
    assert Moved([a, b], 1, Up) == [b, a];
    assert [b, a][..1] == [b] && [b][..0] == [];
    assert ConcatPages([b]) == [] + b.pages;
  }
}
