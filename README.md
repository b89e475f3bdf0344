# PDF merge page — verified model

This project models the client-side page of a PDF merger. The user picks files and
builds up a pending list of PDFs. The list can be reordered by moving an entry one
place up or down, and an entry can be removed. A merge appends every page of every
pending file to one new document, in list order and then page order.

The model has three modules:

- `PendingList` (`pending_list.dfy`) holds the data model and the three list updates.
  An input file is a record of name, declared MIME type and page sequence. A page is
  an opaque type. The updates are selection (`Select`, built on `FilterPdf`), move
  (`MoveFile`, specified by `Moved`) and removal (`RemoveFile`). The module also has
  the predicates behind the disabled state of the submit, up and down buttons.
  Each React state update `setFiles(prev => …)` becomes a function or method from
  the previous list to the next one. `MoveFile` is a method because the source copies
  the list and changes the copy with two `splice` calls. The proof shows that this
  cut-and-insert equals swapping the two neighbours.
- `Merge` (`merge.dfy`) holds the submit handler `MergePdfs`. It refuses with fewer
  than two files. Otherwise it runs the source's nested loop, which appends the
  copied pages of each file to the output. It is proved to produce `ConcatPages(files)`,
  and lemmas give that sequence's length and where each input page lands.
- `HomePage` (`home_page.dfy`) is the component's state: the pending list and the
  latest merge output, as a class with one method per event handler. Each method
  keeps the list invariant: only entries whose type is exactly `application/pdf`.

Alerts are returned flags: `Selection.warned`, `MergeOutcome.TooFewFiles` and the
`notice` result of `HomePage.HomePage.MergePdfs`. A picker event without a file list
(`e.target.files` null) is the empty batch.

## Model

| member | source | states |
|---|---|---|
| `PendingList.FilterPdf` | app/page.tsx:14 | the filtered batch is at most as long as the batch and holds only PDFs; it keeps its full length exactly when every entry is a PDF |
| `PendingList.FilterPdfMembers` | app/page.tsx:14 | a file survives the filter exactly when it is in the batch and its type is `application/pdf` |
| `PendingList.FilterPdfKeepsOrder` | app/page.tsx:14 | the filtered batch is the batch read at a strictly increasing sequence of positions, so relative order is kept |
| `PendingList.PdfPositionsExact` | app/page.tsx:14 | those positions are exactly the positions of the PDF entries, so no PDF is dropped and no other file is kept |
| `PendingList.FilterPdfAppend` | app/page.tsx:14 | filtering a concatenation of two batches is the concatenation of the filtered batches |
| `PendingList.Select` | app/page.tsx:10-21 | the new list is the old list, untouched, followed by the filtered batch; the warning is raised if and only if some file of the batch is not a PDF; an all-PDF list stays all-PDF |
| `PendingList.SelectTwice` | app/page.tsx:14-20 | selecting batch a and then batch b gives the same list as selecting a + b at once, and the combined selection warns exactly when one of the two does |
| `PendingList.Target` | app/page.tsx:26 | the target of a move is one of the two neighbouring positions, the one before the entry exactly when the direction is up |
| `PendingList.MoveFile` | app/page.tsx:23-31 | the copy, remove-at-index and insert-at-target sequence yields exactly `Moved`: the swap of the two neighbours, or the previous list when the target is out of bounds |
| `PendingList.MovedSwaps` | app/page.tsx:25-30 | a move keeps length and multiset; with an in-bounds target it exchanges the entries at index and target and changes no other position; with the target outside `[0, |files|)` it changes nothing |
| `PendingList.MoveUpThenDown` | app/page.tsx:26-29 | moving entry i up and then entry i-1 down restores the list |
| `PendingList.MoveDownThenUp` | app/page.tsx:26-29 | moving entry i down and then entry i+1 up restores the list |
| `PendingList.MovedKeepsAllPdf` | app/page.tsx:23-31 | a move keeps a list of PDFs a list of PDFs |
| `PendingList.RemoveFile` | app/page.tsx:34-36 | keeping every entry whose position is not `index` yields the entries before `index` followed by those after it; an out-of-range index, negative included, yields the same list |
| `PendingList.RemoveFileTakesOne` | app/page.tsx:35 | an in-range removal shortens the list by one and removes exactly the entry at that index from the multiset |
| `PendingList.RemoveFileKeepsAllPdf` | app/page.tsx:35 | a removal keeps a list of PDFs a list of PDFs |
| `PendingList.SubmitDisabled` | app/page.tsx:115 | the submit control is disabled while fewer than two files are pending |
| `PendingList.UpDisabled` | app/page.tsx:87 | the up button of an entry is disabled on the first entry |
| `PendingList.DownDisabled` | app/page.tsx:95 | the down button of an entry is disabled on the last entry |
| `PendingList.DisabledExactlyWhenOutOfBounds` | app/page.tsx:86-98 | the up button is disabled exactly on the first entry and the down button exactly on the last, which are the cases where the move's target is out of bounds and the move changes nothing |
| `Merge.ConcatPagesAppend` | app/page.tsx:48-53 | the output pages of a joined list are the output pages of its parts, one after the other |
| `Merge.ConcatPagesCons` | app/page.tsx:48-53 | the output of a list begins with all pages of its first file, followed by the output of the rest |
| `Merge.ConcatPagesLength` | app/page.tsx:48-53 | the output has as many pages as all inputs together |
| `Merge.PageOfInput` | app/page.tsx:48-53 | page j of input i is the output page at the sum of the earlier inputs' page counts plus j |
| `Merge.MergePdfs` | app/page.tsx:38-59 | the insufficient-count notice is given exactly when the submit control is disabled (fewer than two files); otherwise the output pages are every page of every file in list order and page order, kept as loop invariants over files and pages |
| `Merge.MoveChangesMergeOrder` | app/page.tsx:23-53 | with files A and B, the output is A's pages then B's; after moving B up it is B's pages then A's |
| `HomePage.HomePage.constructor` | app/page.tsx:7-8 | the page starts with an empty pending list and no merge output |
| `HomePage.HomePage.HandleFileUpload` | app/page.tsx:10-21 | the list gains the batch's PDFs at its end; the warning is raised exactly when the batch holds a non-PDF; the list stays all-PDF and the merge output is unchanged |
| `HomePage.HomePage.MoveFile` | app/page.tsx:23-32 | the list becomes `Moved` of the old list; it stays all-PDF and the merge output is unchanged |
| `HomePage.HomePage.RemoveFile` | app/page.tsx:34-36 | the list becomes `RemoveFile` of the old list; it stays all-PDF and the merge output is unchanged |
| `HomePage.HomePage.MergePdfs` | app/page.tsx:38-59 | the list is unchanged; with fewer than two files the notice is given and the old output is kept; otherwise the output is replaced by the concatenated pages of the list |

## Left out

- Rendering, CSS classes and the picker's `accept` attribute (app/page.tsx:61-139) are UI. Only the disabled conditions of the submit, up and down buttons are modelled.
- The PDF library is not modelled: `PDFDocument.create`, `load`, `copyPages`, `getPageIndices`, `addPage` and `save`. A document is only its page sequence. The model takes an input file's pages to be the pages the library would copy from it.
- A load failure on malformed bytes (app/page.tsx:50) is not modelled. The source does not catch it, so the model does not invent a recovery for it.
- Browser I/O and resource lifetime are not modelled: `file.arrayBuffer`, `Blob`, `URL.createObjectURL`, and the `revokeObjectURL` scheduled with `setTimeout` when the link is clicked (app/page.tsx:49, 56-58, 132). The merge output is kept as its page sequence, not as a URL. The source does not revoke the previous URL when a new merge replaces it.
- The `await` points run one after another and are modelled as plain sequential steps. React's `useState` scheduling is not modelled: each setter callback is applied to the current list.
- `alert` dialogs are returned flags.
- HomePage.HomePage.MergePdfs: the merge is modelled as one atomic step on the list as it stands at submit time. In the page it is asynchronous: other handlers, including a second submit, can run at each `await` (app/page.tsx:46, 49-51, 55), since the submit control stays enabled while two or more files are pending (app/page.tsx:115). Overlapping merges are not modelled; in the page, the merge that finishes last sets the download output (app/page.tsx:58), even when it was submitted earlier on an older list.
- `PendingList.MoveFile` and `HomePage.HomePage.MoveFile` require `index` to be a position in the list. The page only calls a move from an existing entry's buttons. JavaScript's `splice` with a negative or too-large start is not modelled.
