/**
 The page component's state: the pending list and the latest merge output,
 updated in place by the four event handlers. Every handler keeps the pending
 list a list of PDFs.
 */
module HomePage {
  import opened PendingList
  import Merge

  datatype Option<T> = None | Some(value: T)

  class HomePage {
    /** The pending list, in merge order. */
    var files: seq<InputFile>
    /** The pages behind the download link of the latest successful merge. */
    var mergedPdf: Option<seq<Page>>

    ghost predicate Valid()
      reads this
    {
      AllPdf(files)
    }

    constructor ()
      ensures Valid() && files == [] && mergedPdf == None
    {
      files := [];
      mergedPdf := None;
    }

    /** A batch is chosen in the file picker. */
    method HandleFileUpload(batch: seq<InputFile>) returns (warned: bool)
      requires Valid()
      modifies this
      ensures Valid()
      ensures files == old(files) + FilterPdf(batch)
      ensures warned <==> !AllPdf(batch)
      ensures mergedPdf == old(mergedPdf)
    {
      var selection := Select(files, batch);
      files := selection.files;
      warned := selection.warned;
    }

    /** The up or down button of the entry at `index` is pressed. */
    method MoveFile(index: nat, direction: Direction)
      requires Valid() && index < |files|
      modifies this
      ensures Valid()
      ensures files == Moved(old(files), index, direction)
      ensures mergedPdf == old(mergedPdf)
    {
      MovedKeepsAllPdf(files, index, direction);
      files := PendingList.MoveFile(files, index, direction);
    }

    /** The remove button of the entry at `index` is pressed. */
    method RemoveFile(index: int)
      requires Valid()
      modifies this
      ensures Valid()
      ensures files == PendingList.RemoveFile(old(files), index)
      ensures mergedPdf == old(mergedPdf)
    {
      RemoveFileKeepsAllPdf(files, index);
      files := PendingList.RemoveFile(files, index);
    }

    /** The form is submitted. With fewer than two files the notice is given
        and nothing changes; otherwise the new output replaces the old one. */
    method MergePdfs() returns (notice: bool)
      requires Valid()
      modifies this
      ensures Valid() && files == old(files)
      ensures notice <==> SubmitDisabled(files)
      ensures mergedPdf == if notice then old(mergedPdf) else Some(Merge.ConcatPages(files))
    {
      var outcome := Merge.MergePdfs(files);
      notice := outcome.TooFewFiles?;
      if outcome.Merged? {
        mergedPdf := Some(outcome.pages);
      }
    }
  }
}
