# Document order handling of the Alternative Constitution site

The site lists PDF documents in three fixed categories ("Alternative
Constitution", "Explanation", "Listen Up"). Files live in folders of a
storage bucket; a `pdf_order` table holds one row per category with a
`file_order` list of file names. This project models the two client
components that handle that order:

- **The admin editor** (`src/app/admin/page.tsx`), module `AdminPage`.
  - It merges the stored `file_order` with the live folder listing (`Reconcile`).
  - It moves an entry by drag and drop (`Move`, `AdminEditor.Drop`).
  - Its upload, delete and save-order handlers change the in-memory list and
    write it through to the order table (`AdminEditor`).
- **The public category browser** (`src/app/components/Navbar.tsx`), module `Navbar`.
  - It chooses the list shown per category (`ShownList`).
  - It checks the fetched answers with the first error winning (`FirstError`,
    `CategoryBrowser.FetchFolderFiles`).
  - It selects and closes a document (`CategoryBrowser.Select`, `ClosePdf`)
    and highlights the selected item (`IsHighlighted`, `ViewerShown`).
  - It strips `.pdf` to form a label (`Label`).

Supporting modules:
- `Sequences`: the list operations of the admin page. These are `filter` with an
  `includes` test (`Retain`, `Exclude`) and the two `splice` forms (`RemoveAt`,
  `InsertAt`), with lemmas on membership, counts and relative order (`IsSubseq`).
- `Backend`: the shapes of the SDK's answers.
- `Categories`: the three category names.

Every backend call (storage list/upload/remove, table select/update) is a
parameter of the method that awaits it. An `Ok`/`Done` parameter means the
call succeeded. `Err(detail)`/`Failed(detail)` means it failed; `detail` is the
text the page appends to its error prefix (`error.message` for an `Error`, else
empty). The confirmation dialog of a delete is a boolean parameter. The order
table is a field `orderTable: map<string, seq<string>>` of the editor.

Behaviours of the code that the model keeps, where a reader might expect otherwise:
- The admin page reads its row with `.single()`, so a missing row is a fetch
  error, not "no stored order". Only a null or undefined `file_order` gives the
  plain listing. An empty `file_order` (`[]`, truthy in JavaScript) goes
  through the merge, and `ReconcileEmptyStored` shows that it yields the listing
  as well.
- The browser does **not** reconcile. A non-empty stored order is shown
  verbatim, so names whose files were deleted are still shown and files missing
  from the order are not shown (`ShownListIsNotReconciled`). For a non-empty
  stored order it agrees with the admin editor exactly when the stored order
  names the listed files (`ShownListAgreesWhenInSync`,
  `ShownListAgreesOnlyWhenInSync`, `ShownListDiffersFromReconcile`). With an
  empty or null `file_order`, both show the listing.
- When neither the stored order nor the listing repeats a name, the
  reconciled order is a permutation of the listing (`ReconcilePermutation`).
  A repeated stored name that is still listed breaks this: stored [A, A]
  against listing [A] gives [A, A] (`ReconcileRepeatedStored`). Membership is
  exact in every case (`Reconcile`).
- Delete removes every occurrence of the name, not just one.
- Saving to a category that has no row updates nothing and reports no error
  (`UpdateOrder`), because `update(...).eq(...)` matches no row.
- A failed fetch sets `error` and keeps the previous `pdfFiles`.

## Model

| member | source | states |
|---|---|---|
| `Sequences.Retain` | src/app/admin/page.tsx:62-64 | a name is in the result iff it is in the stored order and in the listing; never longer than the stored order |
| `Sequences.Exclude` | src/app/admin/page.tsx:65-67 | a name is in the result iff it is in the list and not in the excluded pool; never longer than the list |
| `Sequences.RetainSubseq` | src/app/admin/page.tsx:62-64 | kept stored names keep their relative order (the result is a subsequence) |
| `Sequences.ExcludeSubseq` | src/app/admin/page.tsx:65-67 | new names keep their listing order (the result is a subsequence) |
| `Sequences.RetainCount` | src/app/admin/page.tsx:62-64 | every copy of a listed name is kept and no copy of an unlisted one |
| `Sequences.ExcludeCount` | src/app/admin/page.tsx:65-67 | every copy of a name outside the pool is kept and no copy of a pooled one |
| `Sequences.SpliceStart` | src/app/admin/page.tsx:157-164 | where `splice` starts for the parsed drag index: `NaN` is 0, a negative index counts back from the end (not below 0), an index past the end is the end |
| `Sequences.RemoveAt` | src/app/admin/page.tsx:164 | `splice(i, 1)` shortens the list by one, shifts later names down by one, and removes exactly one copy of `s[i]` |
| `Sequences.InsertAt` | src/app/admin/page.tsx:165 | `splice(i, 0, x)` puts `x` at index `i`, and removing index `i` again gives back the list (inverse of RemoveAt) |
| `Sequences.InsertRemoved` | src/app/admin/page.tsx:164-165 | taking the name at `i` out and inserting it back at `i` restores the list |
| `AdminPage.Reconcile` | src/app/admin/page.tsx:56-69 | the merged order holds exactly the listed names; with a null `file_order` it is the listing |
| `AdminPage.ReconcileEmptyStored` | src/app/admin/page.tsx:59-68 | an empty stored order gives the listing unchanged |
| `AdminPage.ReconcileLayout` | src/app/admin/page.tsx:62-68 | the merged order has a prefix of stored, still-listed names in stored order, then only names absent from the stored order, in listing order |
| `AdminPage.ReconcilePermutation` | src/app/admin/page.tsx:56-68 | for duplicate-free stored order and listing, the merged order is a duplicate-free permutation of the listing |
| `AdminPage.ReconcileInSync` | src/app/admin/page.tsx:59-68 | a stored order naming exactly the listed files comes back verbatim |
| `AdminPage.ReconcileIdempotent` | src/app/admin/page.tsx:59-68 | merging a merged order again with the same listing changes nothing |
| `AdminPage.ReconcileRepeatedStored` | src/app/admin/page.tsx:62-68 | a stored name repeated and still listed is kept twice: stored [A.pdf, A.pdf] against listing [A.pdf] gives [A.pdf, A.pdf], not a permutation of the listing |
| `AdminPage.ReconcileExample` | src/app/admin/page.tsx:59-68 | stored [A.pdf, B.pdf] with listing [B.pdf, C.pdf] gives [B.pdf, C.pdf] |
| `AdminPage.Move` | src/app/admin/page.tsx:162-166 | a drag keeps length and multiset, puts the dragged name at the drop index, and leaves the other names in their relative order |
| `AdminPage.MoveShifts` | src/app/admin/page.tsx:163-165 | the exact new index of every name: the names between the two indices shift by one |
| `AdminPage.MoveInPlace` | src/app/admin/page.tsx:162 | dropping an entry on itself leaves the list unchanged |
| `AdminPage.MoveUndo` | src/app/admin/page.tsx:163-165 | dragging the name back to its old index restores the list |
| `AdminPage.ObjectKey` | src/app/admin/page.tsx:94 | the storage key is the folder, a slash, then the file name |
| `AdminPage.ObjectKeyInjective` | src/app/admin/page.tsx:126 | for folders without a slash, the key determines both folder and file name |
| `AdminPage.CategoriesHaveNoSlash` | src/app/admin/page.tsx:232-236 | none of the three categories contains a slash |
| `AdminPage.UpdateOrder` | src/app/admin/page.tsx:173-176 | the update overwrites the category's row with the list if the row exists, touches no other row and adds none |
| `AdminPage.UpdateOrderIdempotent` | src/app/admin/page.tsx:170-176 | saving the same list twice gives the same table as saving it once |
| `AdminPage.ReorderSaveReload` | src/app/admin/page.tsx:162-176 | after a move and a save, a fresh merge against the same listing shows exactly the saved order |
| `AdminPage.DeleteRemovesName` | src/app/admin/page.tsx:134 | the deleted name is gone, every other name keeps its count, and the survivors keep their order |
| `AdminPage.AdminEditor.constructor` | src/app/admin/page.tsx:8-12 | empty list, loading, no error, no file chosen, first category |
| `AdminPage.AdminEditor.SelectFolder` | src/app/admin/page.tsx:226-237 | only the active folder changes |
| `AdminPage.AdminEditor.ChooseFile` | src/app/admin/page.tsx:85-89 | a chosen file becomes the pending upload; an empty choice keeps the previous one |
| `AdminPage.AdminEditor.FetchFiles` | src/app/admin/page.tsx:35-80 | an order or listing error sets the fetch error and keeps `pdfFiles`; otherwise `pdfFiles` is the merged order and the error is cleared; loading ends false |
| `AdminPage.AdminEditor.SaveOrder` | src/app/admin/page.tsx:170-187 | success writes the list verbatim under the active folder; failure only sets the save error; `pdfFiles` never changes |
| `AdminPage.AdminEditor.Upload` | src/app/admin/page.tsx:91-116 | no file: nothing changes; storage error: error set, list and table kept; success: key `folder/name`, list gains the name at the end, exactly that list is saved, the pending file is cleared |
| `AdminPage.AdminEditor.Delete` | src/app/admin/page.tsx:118-139 | declined: nothing changes; storage error: error set, list and table kept; success: every copy of the name removed and exactly that list saved |
| `AdminPage.AdminEditor.Drop` | src/app/admin/page.tsx:154-168 | a drag from entry `d` moves it to the drop index (unchanged when the indices agree); a foreign drop (`NaN`) moves the first entry; a negative number counts from the end; nothing else changes, nothing is saved |
| `Navbar.FirstRow` | src/app/components/Navbar.tsx:67-68 | finds the first row of the category, or reports that no row has it |
| `Navbar.OrderForCategory` | src/app/components/Navbar.tsx:67-69 | the first matching row's `file_order`, or empty when no row matches or the order is null |
| `Navbar.ShownList` | src/app/components/Navbar.tsx:72-88 | a non-empty stored order is shown verbatim; otherwise (no row, null or empty order) the listing |
| `Navbar.ShownListIsNotReconciled` | src/app/components/Navbar.tsx:72-76 | a deleted name stays shown and a new file stays hidden, unlike in the admin merge |
| `Navbar.ShownListDiffersFromReconcile` | src/app/components/Navbar.tsx:72-88 | for every non-empty stored order: a stored name no longer listed is shown by the browser but dropped by the admin merge, and a listed name missing from the order is hidden by the browser but appended by the merge |
| `Navbar.ShownListAgreesOnlyWhenInSync` | src/app/components/Navbar.tsx:72-88 | for a non-empty stored order, browser and editor showing the same list forces the stored order to name exactly the listed files (the converse of `ShownListAgreesWhenInSync`) |
| `Navbar.ShownListAgreesWhenInSync` | src/app/components/Navbar.tsx:72-88 | when the stored order names exactly the listed files, browser and editor show the same list |
| `Navbar.FirstError` | src/app/components/Navbar.tsx:33-64 | no error iff every answer is clean; otherwise the earliest error in check order |
| `Navbar.Label` | src/app/components/Navbar.tsx:154 | when `HasPdfSuffix` holds (the `/\.pdf$/` test: a case-sensitive `.pdf` at the very end), one `.pdf` is removed and label + ".pdf" is the name; other names are unchanged |
| `Navbar.LabelOfPdfName` | src/app/components/Navbar.tsx:203 | any base name is recovered from `base.pdf` |
| `Navbar.CategoryBrowser.constructor` | src/app/components/Navbar.tsx:9-18 | nothing selected (index -1), empty lists, loading, no error, viewer hidden |
| `Navbar.CategoryBrowser.FetchFolderFiles` | src/app/components/Navbar.tsx:22-100 | the first error (orders, then the three listings) is reported and no list set; missing data reports "no files"; else each list is the chosen list and the error is cleared; loading ends false |
| `Navbar.CategoryBrowser.Select` | src/app/components/Navbar.tsx:105-114 | sets category, index and file and shows the viewer; `ViewerShown` (the viewer's render condition, Navbar.tsx:279) holds iff the category is non-empty; `IsHighlighted` (the test of `getButtonClass`/`getIndicatorClass`, Navbar.tsx:123-136) holds for exactly that item |
| `Navbar.CategoryBrowser.ClosePdf` | src/app/components/Navbar.tsx:116-120 | hides the viewer (`ViewerShown` false), index -1 and file empty, category kept; `IsHighlighted` is false for every rendered (non-negative) index |

Three predicates model source expressions without contracts of their own, so
they have no row; the rows above state them:
- `Navbar.CategoryBrowser.IsHighlighted` (src/app/components/Navbar.tsx:123-136) is stated by `Select` and `ClosePdf`.
- `Navbar.CategoryBrowser.ViewerShown` (src/app/components/Navbar.tsx:279) is stated by `Select` and `ClosePdf`.
- `Navbar.HasPdfSuffix` (the `/\.pdf$/` test at src/app/components/Navbar.tsx:154) is stated by `Label`.

## Left out

- Authentication check and redirect (src/app/admin/page.tsx:18-30) and the login page: they wrap the auth provider.
- The backend itself: storage listing, upload, remove, public URLs, and the table select and update. Their answers are parameters. The table update is modelled by its effect on `orderTable`.
- Each storage listing entry and each chosen `File` is reduced to its name.
- `alert` and clearing the file input (src/app/admin/page.tsx:109-114).
- The `dataTransfer` text and its parsing by `parseInt` (src/app/admin/page.tsx:147, 157-160): `Drop` receives the parsed number, with `None` for `NaN`.
- `AdminPage.AdminEditor.Drop`: a parsed drag index at or past the end of the list is excluded by its requires. Such a drop comes from foreign text that parses to a large number. `splice` then removes nothing, `movedFile` is `undefined`, and `undefined` is inserted into the list, which a list of names cannot hold. Drags started on an entry, `NaN` from any other drop, and negative numbers are modelled. The drop index itself is always a rendered entry's index.
- Each handler runs atomically. In the source, `handleUpload` and `handleDelete` use the `pdfFiles` and `folder` of the render they were clicked in (src/app/admin/page.tsx:94, 104, 126, 134), so a drag or refetch that completes during the storage call is overwritten and not saved. Overlapping folder fetches (src/app/admin/page.tsx:32-83) are not ordered: the last answer wins, even for a folder no longer selected, and a later "Save Order" writes that list into the selected folder's row.
- The save launched by upload and delete is not awaited in the source. The model completes it before the handler returns, so a later interleaving with another handler is not captured.
- When the effects run: the admin fetch on folder or authentication change, the browser fetch once on mount. `FetchFiles` and `FetchFolderFiles` are called explicitly.
- The concurrency of the three listings in the browser: they arrive as three answers.
- `Navbar.CategoryBrowser.FetchFolderFiles`: the `catch` branch for a request that rejects instead of answering with an error ("Error fetching files: " …) is not modelled.
- Rendering: the loading/error/list precedence, the class strings of `getButtonClass`/`getIndicatorClass` beyond the highlight test, and all other markup.
- src/app/components/PdfViewer.tsx, src/app/components/Index.tsx, src/app/api/order/route.ts and the static pages are not part of this model. They are URL templating, file-system JSON reading and writing, and static markup.
