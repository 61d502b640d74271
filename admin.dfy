/** The administrator's order editor (src/app/admin/page.tsx): the merge of a
    stored `file_order` with the live storage listing, the drag-and-drop move,
    and the upload, delete and save-order handlers that write the in-memory
    list through to the `pdf_order` table. */
module AdminPage {
  import opened Backend
  import opened Sequences
  import Categories

  const FetchErrorPrefix: string := "Error fetching files: "
  const UploadErrorPrefix: string := "Error uploading file: "
  const DeleteErrorPrefix: string := "Error deleting file: "
  const SaveErrorPrefix: string := "Error saving file order: "

  /* ---------------------------------------------------------------------
     Reconciliation of the stored order with the storage listing
     --------------------------------------------------------------------- */

  /** The order the editor shows for a category. `stored` is the row's
      `file_order` (`None` when it is null or undefined), `listing` the names
      the storage listing returned, in its order. Stored names that are still
      listed come first, in stored order; listed names the stored order does
      not mention follow, in listing order. */
  function Reconcile(stored: Option<seq<string>>, listing: seq<string>): (r: seq<string>)
    ensures forall x :: x in r <==> x in listing
    ensures stored.None? ==> r == listing
  {
    match stored
    case None => listing
    case Some(order) => Retain(order, listing) + Exclude(listing, order)
  }

  /** An empty stored order (which JavaScript treats as present, since `[]`
      is truthy) yields the listing unchanged, just as a missing one does. */
  lemma ReconcileEmptyStored(listing: seq<string>)
    ensures Reconcile(Some([]), listing) == listing
  {
    ExcludeNothing(listing);
  }

  /** The reconciled order splits at `k`: before it, only names of the stored
      order, in their stored relative order; from it on, only names the stored
      order lacks, in listing order. So every new name comes after every kept
      stored name. */
  lemma ReconcileLayout(order: seq<string>, listing: seq<string>)
    ensures var r, k := Reconcile(Some(order), listing), |Retain(order, listing)|;
      && k <= |r|
      && (forall i :: 0 <= i < k ==> r[i] in order && r[i] in listing)
      && (forall i :: k <= i < |r| ==> r[i] !in order && r[i] in listing)
      && IsSubseq(r[..k], order)
      && IsSubseq(r[k..], listing)
  {
    var kept, added := Retain(order, listing), Exclude(listing, order);
    var r := kept + added;
    assert r[..|kept|] == kept;
    assert r[|kept|..] == added;
    RetainSubseq(order, listing);
    ExcludeSubseq(listing, order);
    forall i | 0 <= i < |kept| ensures r[i] in order && r[i] in listing {
      KeptMember(order, listing, i);
    }
    forall i | |kept| <= i < |r| ensures r[i] !in order && r[i] in listing {
      AddedMember(order, listing, i - |kept|);
    }
  }

  lemma KeptMember(order: seq<string>, listing: seq<string>, i: int)
    requires 0 <= i < |Retain(order, listing)|
    ensures Retain(order, listing)[i] in order && Retain(order, listing)[i] in listing
  {
    var kept := Retain(order, listing);
    assert kept[i] in kept;
  }

  lemma AddedMember(order: seq<string>, listing: seq<string>, i: int)
    requires 0 <= i < |Exclude(listing, order)|
    ensures Exclude(listing, order)[i] !in order && Exclude(listing, order)[i] in listing
  {
    var added := Exclude(listing, order);
    assert added[i] in added;
  }

  /** When neither the stored order nor the listing repeats a name, the
      reconciled order is a permutation of the listing: every listed name
      appears exactly once. */
  lemma ReconcilePermutation(order: seq<string>, listing: seq<string>)
    requires NoDup(order) && NoDup(listing)
    ensures var r := Reconcile(Some(order), listing);
      multiset(r) == multiset(listing) && NoDup(r)
  {
    var kept, added := Retain(order, listing), Exclude(listing, order);
    var r := Reconcile(Some(order), listing);
    forall x ensures multiset(r)[x] == multiset(listing)[x] {
      RetainCount(order, listing, x);
      ExcludeCount(listing, order, x);
      NoDupCount(order, x);
      NoDupCount(listing, x);
    }
    assert multiset(r) == multiset(listing);
    RetainSubseq(order, listing);
    ExcludeSubseq(listing, order);
    SubseqNoDup(kept, order);
    SubseqNoDup(added, listing);
    forall i, j | 0 <= i < j < |r| ensures r[i] != r[j] {
      if j < |kept| {
        assert r[i] == kept[i] && r[j] == kept[j];
      } else if |kept| <= i {
        assert r[i] == added[i - |kept|] && r[j] == added[j - |kept|];
      } else {
        assert r[i] == kept[i] && kept[i] in kept;
        assert r[j] == added[j - |kept|] && added[j - |kept|] in added;
      }
    }
  }

  /** A stored order that names exactly the listed files comes back verbatim:
      what the editor saved is what the next fetch shows. */
  lemma ReconcileInSync(order: seq<string>, listing: seq<string>)
    requires forall x :: x in order <==> x in listing
    ensures Reconcile(Some(order), listing) == order
  {
    RetainEverything(order, listing);
    ExcludeEverything(listing, order);
  }

  /** Reconciling again against the same listing changes nothing. */
  lemma ReconcileIdempotent(stored: Option<seq<string>>, listing: seq<string>)
    ensures var r := Reconcile(stored, listing);
      Reconcile(Some(r), listing) == r
  {
    ReconcileInSync(Reconcile(stored, listing), listing);
  }

  /** A name repeated in the stored order and still listed keeps both
      copies, so the result is then no permutation of the listing. */
  lemma ReconcileRepeatedStored()
    ensures Reconcile(Some(["A.pdf", "A.pdf"]), ["A.pdf"]) == ["A.pdf", "A.pdf"]
    ensures multiset(Reconcile(Some(["A.pdf", "A.pdf"]), ["A.pdf"])) != multiset(["A.pdf"])
  {
    assert ["A.pdf", "A.pdf"][1..] == ["A.pdf"];
    assert Retain(["A.pdf", "A.pdf"], ["A.pdf"]) == ["A.pdf", "A.pdf"];
    assert Exclude(["A.pdf"], ["A.pdf", "A.pdf"]) == [];
  }

  /** Stored ["A.pdf", "B.pdf"] against listing ["B.pdf", "C.pdf"]: the
      deleted A.pdf is dropped and the new C.pdf appended. */
  lemma ReconcileExample()
    ensures Reconcile(Some(["A.pdf", "B.pdf"]), ["B.pdf", "C.pdf"]) == ["B.pdf", "C.pdf"]
  {
    var kept := Retain(["A.pdf", "B.pdf"], ["B.pdf", "C.pdf"]);
    assert ["A.pdf", "B.pdf"][1..] == ["B.pdf"];
    assert "A.pdf" != "B.pdf" && "A.pdf" != "C.pdf";
    assert kept == ["B.pdf"];
    assert ["B.pdf", "C.pdf"][1..] == ["C.pdf"];
    assert Exclude(["B.pdf", "C.pdf"], ["A.pdf", "B.pdf"]) == ["C.pdf"];
  }

  /* ---------------------------------------------------------------------
     Drag and drop
     --------------------------------------------------------------------- */

  /** The list after dragging the entry at `from` onto the entry at `to`:
      `splice(from, 1)` then `splice(to, 0, moved)` on a copy. The moved name
      lands at `to`; taking it back out leaves the other names exactly as
      they were with the original taken out, so their relative order holds. */
  function Move(s: seq<string>, from: int, to: int): (r: seq<string>)
    requires 0 <= from < |s| && 0 <= to < |s|
    ensures |r| == |s| && multiset(r) == multiset(s)
    ensures r[to] == s[from]
    ensures RemoveAt(r, to) == RemoveAt(s, from)
  {
    InsertAt(RemoveAt(s, from), to, s[from])
  }

  /** Where every name ends up: the names between the two indices shift by
      one towards the place the moved name left. */
  lemma MoveShifts(s: seq<string>, from: int, to: int, k: int)
    requires 0 <= from < |s| && 0 <= to < |s| && 0 <= k < |s|
    ensures Move(s, from, to)[k] ==
      if k == to then s[from]
      else if from < to && from <= k < to then s[k + 1]
      else if to < from && to < k <= from then s[k - 1]
      else s[k]
  {
    var rest := RemoveAt(s, from);
    var r := rest[..to] + [s[from]] + rest[to..];
    assert Move(s, from, to) == r;
    if k < to {
      assert r[k] == rest[k];
    } else if k > to {
      assert r[k] == rest[k - 1];
    }
  }

  /** Dropping an entry onto itself leaves the list as it was. */
  lemma MoveInPlace(s: seq<string>, i: int)
    requires 0 <= i < |s|
    ensures Move(s, i, i) == s
  {
    InsertRemoved(s, i);
  }

  /** Dragging the moved entry back to where it came from undoes the move. */
  lemma MoveUndo(s: seq<string>, from: int, to: int)
    requires 0 <= from < |s| && 0 <= to < |s|
    ensures Move(Move(s, from, to), to, from) == s
  {
    var r := Move(s, from, to);
    InsertRemoved(s, from);
    assert Move(r, to, from) == InsertAt(RemoveAt(s, from), from, s[from]);
  }

  /* ---------------------------------------------------------------------
     Storage keys and the order table
     --------------------------------------------------------------------- */

  /** The storage object key `${folder}/${name}` used by upload and delete. */
  function ObjectKey(folder: string, name: string): (key: string)
    ensures |key| == |folder| + 1 + |name|
    ensures key[..|folder|] == folder && key[|folder|] == '/' && key[|folder| + 1..] == name
  {
    folder + "/" + name
  }

  /** For folders without a slash (all three categories) the key determines
      both the folder and the file name: two different files never share one. */
  lemma ObjectKeyInjective(f1: string, n1: string, f2: string, n2: string)
    requires '/' !in f1 && '/' !in f2
    requires ObjectKey(f1, n1) == ObjectKey(f2, n2)
    ensures f1 == f2 && n1 == n2
  {
    assert |f1| == |f2|;
  }

  lemma CategoriesHaveNoSlash()
    ensures forall c :: c in Categories.All ==> '/' !in c
  {
    assert Categories.All == ["Alternative Constitution", "Explanation", "Listen Up"];
  }

  /** `update({ file_order: files }).eq("category", category)` on the order
      table: the matching row is overwritten; when no row matches, the update
      touches nothing and reports no error. */
  function UpdateOrder(table: map<string, seq<string>>, category: string, files: seq<string>)
    : (t: map<string, seq<string>>)
    ensures t.Keys == table.Keys
    ensures category in table ==> t[category] == files
    ensures forall c :: c in table && c != category ==> t[c] == table[c]
  {
    if category in table then table[category := files] else table
  }

  /** Saving the same list twice leaves the table as saving it once. */
  lemma UpdateOrderIdempotent(table: map<string, seq<string>>, category: string, files: seq<string>)
    ensures UpdateOrder(UpdateOrder(table, category, files), category, files)
         == UpdateOrder(table, category, files)
  {
  }

  /** Reorder, save, then fetch again with the same listing: the editor shows
      exactly the order it saved. */
  lemma ReorderSaveReload(table: map<string, seq<string>>, category: string,
                          s: seq<string>, from: int, to: int, listing: seq<string>)
    requires category in table
    requires 0 <= from < |s| && 0 <= to < |s|
    requires forall x :: x in s <==> x in listing
    ensures var t := UpdateOrder(table, category, Move(s, from, to));
      category in t && Reconcile(Some(t[category]), listing) == Move(s, from, to)
  {
    var moved := Move(s, from, to);
    forall x ensures x in moved <==> x in s {
      assert x in moved <==> x in multiset(moved);
    }
    ReconcileInSync(moved, listing);
  }

  /* ---------------------------------------------------------------------
     The editor's state and handlers
     --------------------------------------------------------------------- */

  /** The admin page's component state, together with the `pdf_order` table
      it writes through to (category -> `file_order`). A file chosen for
      upload is represented by its name. */
  class AdminEditor {
    var pdfFiles: seq<string>
    var loading: bool
    var error: Option<string>
    var fileToUpload: Option<string>
    var folder: string
    var orderTable: map<string, seq<string>>

    constructor (table: map<string, seq<string>>)
      ensures pdfFiles == [] && loading && error == None && fileToUpload == None
      ensures folder == Categories.AlternativeConstitution && orderTable == table
    {
      pdfFiles := [];
      loading := true;
      error := None;
      fileToUpload := None;
      folder := Categories.AlternativeConstitution;
      orderTable := table;
    }

    /** The category drop-down; it offers the three categories only. */
    method SelectFolder(category: string)
      requires category in Categories.All
      modifies this
      ensures folder == category
      ensures pdfFiles == old(pdfFiles) && loading == old(loading) && error == old(error)
      ensures fileToUpload == old(fileToUpload) && orderTable == old(orderTable)
    {
      folder := category;
    }

    /** The file input: a selection replaces the pending file, an empty one
      keeps it. */
    method ChooseFile(chosen: Option<string>)
      modifies this
      ensures fileToUpload == if chosen.Some? then chosen else old(fileToUpload)
      ensures pdfFiles == old(pdfFiles) && loading == old(loading) && error == old(error)
      ensures folder == old(folder) && orderTable == old(orderTable)
    {
      if chosen.Some? {
        fileToUpload := chosen;
      }
    }

    /** `fetchFiles`: `order` is the answer of the `.single()` select of this
        folder's row (a missing row is an error), `listing` the storage
        listing of the folder. Either error leaves `pdfFiles` as it was. */
    method FetchFiles(order: Result<Option<seq<string>>>, listing: Result<seq<string>>)
      modifies this
      ensures !loading
      ensures order.Err? ==> error == Some(FetchErrorPrefix + order.detail) && pdfFiles == old(pdfFiles)
      ensures order.Ok? && listing.Err? ==>
        error == Some(FetchErrorPrefix + listing.detail) && pdfFiles == old(pdfFiles)
      ensures order.Ok? && listing.Ok? ==>
        error == None && pdfFiles == Reconcile(order.value, listing.value)
      ensures folder == old(folder) && fileToUpload == old(fileToUpload) && orderTable == old(orderTable)
    {
      loading := true;
      error := None;
      if order.Err? {
        error := Some(FetchErrorPrefix + order.detail);
      } else if listing.Err? {
        error := Some(FetchErrorPrefix + listing.detail);
      } else {
        var currentFiles := listing.value;
        var updatedOrder := currentFiles;
        if order.value.Some? {
          var stored := order.value.value;
          var orderedFiles := Retain(stored, currentFiles);
          var newFiles := Exclude(currentFiles, stored);
          updatedOrder := orderedFiles + newFiles;
        }
        pdfFiles := updatedOrder;
      }
      loading := false;
    }

    /** `handleSaveOrder(files)`: writes `files` verbatim as the active
        folder's order; on failure only `error` changes. The Save Order
        button passes the current `pdfFiles`. */
    method SaveOrder(files: seq<string>, outcome: Outcome)
      modifies this
      ensures outcome.Done? ==>
        orderTable == UpdateOrder(old(orderTable), folder, files) && error == old(error)
      ensures outcome.Failed? ==>
        orderTable == old(orderTable) && error == Some(SaveErrorPrefix + outcome.detail)
      ensures pdfFiles == old(pdfFiles) && loading == old(loading)
      ensures folder == old(folder) && fileToUpload == old(fileToUpload)
    {
      if outcome.Done? {
        orderTable := UpdateOrder(orderTable, folder, files);
      } else {
        error := Some(SaveErrorPrefix + outcome.detail);
      }
    }

    /** `handleUpload`: `upload` is the storage answer, `save` the answer of
        the order write that follows a successful upload. `key` is the object
        key sent to storage, `None` when no file was chosen (a no-op). */
    method Upload(upload: Outcome, save: Outcome) returns (key: Option<string>)
      modifies this
      ensures old(fileToUpload).None? ==> key == None && unchanged(this)
      ensures old(fileToUpload).Some? ==> key == Some(ObjectKey(folder, old(fileToUpload).value))
      ensures old(fileToUpload).Some? && upload.Failed? ==>
        && error == Some(UploadErrorPrefix + upload.detail)
        && pdfFiles == old(pdfFiles) && orderTable == old(orderTable)
        && fileToUpload == old(fileToUpload)
      ensures old(fileToUpload).Some? && upload.Done? ==>
        && pdfFiles == old(pdfFiles) + [old(fileToUpload).value]
        && fileToUpload == None
        && (save.Done? ==> orderTable == UpdateOrder(old(orderTable), folder, pdfFiles) && error == old(error))
        && (save.Failed? ==> orderTable == old(orderTable) && error == Some(SaveErrorPrefix + save.detail))
      ensures folder == old(folder) && loading == old(loading)
    {
      if fileToUpload.None? {
        return None;
      }
      var name := fileToUpload.value;
      key := Some(ObjectKey(folder, name));
      if upload.Failed? {
        error := Some(UploadErrorPrefix + upload.detail);
      } else {
        var updatedFiles := pdfFiles + [name];
        pdfFiles := updatedFiles;
        SaveOrder(updatedFiles, save);
        fileToUpload := None;
      }
    }

    /** `handleDelete(fileName)`: `confirmed` is the answer to the
        confirmation dialog, `remove` the storage answer, `save` the answer
        of the order write that follows a successful removal. Success drops
        every occurrence of the name. */
    method Delete(fileName: string, confirmed: bool, remove: Outcome, save: Outcome)
      returns (key: Option<string>)
      modifies this
      ensures !confirmed ==> key == None && unchanged(this)
      ensures confirmed ==> key == Some(ObjectKey(folder, fileName))
      ensures confirmed && remove.Failed? ==>
        && error == Some(DeleteErrorPrefix + remove.detail)
        && pdfFiles == old(pdfFiles) && orderTable == old(orderTable)
      ensures confirmed && remove.Done? ==>
        && pdfFiles == Exclude(old(pdfFiles), [fileName])
        && (save.Done? ==> orderTable == UpdateOrder(old(orderTable), folder, pdfFiles) && error == old(error))
        && (save.Failed? ==> orderTable == old(orderTable) && error == Some(SaveErrorPrefix + save.detail))
      ensures folder == old(folder) && loading == old(loading) && fileToUpload == old(fileToUpload)
    {
      if !confirmed {
        return None;
      }
      key := Some(ObjectKey(folder, fileName));
      if remove.Failed? {
        error := Some(DeleteErrorPrefix + remove.detail);
      } else {
        var updatedFiles := Exclude(pdfFiles, [fileName]);
        pdfFiles := updatedFiles;
        SaveOrder(updatedFiles, save);
      }
    }

    /** `handleDrop(index)`: `dragged` is what `parseInt` makes of the drag
        data, `None` for `NaN`. A drag started on an entry carries its index;
        a desktop file or non-numeric text reads `NaN`, which `splice` treats
        as 0, so the first entry moves; numeric text gives its number. Only
        the in-memory list changes; nothing is saved. */
    method Drop(dragged: Option<int>, index: int)
      requires 0 <= index < |pdfFiles|
      requires dragged.None? || dragged.value < |pdfFiles|
      modifies this
      ensures pdfFiles == Move(old(pdfFiles), SpliceStart(dragged, |old(pdfFiles)|), index)
      ensures dragged.Some? && 0 <= dragged.value ==> pdfFiles == Move(old(pdfFiles), dragged.value, index)
      ensures dragged.None? ==> pdfFiles == Move(old(pdfFiles), 0, index)
      ensures dragged == Some(index) ==> pdfFiles == old(pdfFiles)
      ensures error == old(error) && loading == old(loading) && fileToUpload == old(fileToUpload)
      ensures folder == old(folder) && orderTable == old(orderTable)
    {
      var start := SpliceStart(dragged, |pdfFiles|);
      if dragged != Some(index) {
        var updatedFiles := pdfFiles;
        var movedFile := updatedFiles[start];
        updatedFiles := RemoveAt(updatedFiles, start);
        updatedFiles := InsertAt(updatedFiles, index, movedFile);
        pdfFiles := updatedFiles;
      } else {
        MoveInPlace(pdfFiles, index);
      }
    }
  }

  /** A successful delete removes every copy of the name, keeps every other
      name with its count, and keeps the survivors in their order. */
  lemma DeleteRemovesName(s: seq<string>, name: string)
    ensures var r := Exclude(s, [name]);
      && name !in r
      && (forall x :: x != name ==> multiset(r)[x] == multiset(s)[x])
      && IsSubseq(r, s)
  {
    forall x | x != name ensures multiset(Exclude(s, [name]))[x] == multiset(s)[x] {
      ExcludeCount(s, [name], x);
    }
    ExcludeSubseq(s, [name]);
  }
}
