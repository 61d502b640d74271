/** The public category browser (src/app/components/Navbar.tsx): which list
    it shows for each category, how it checks the fetched answers, the
    selection of a document, and the label shown for a file name. */
module Navbar {
  import opened Backend
  import Categories
  import AdminPage

  const NoFilesMessage: string := "No files found in the specified folders."

  /** One row of the `select("category, file_order")` answer. */
  datatype OrderRow = OrderRow(category: string, fileOrder: Option<seq<string>>)

  /* ---------------------------------------------------------------------
     Choosing the list shown for a category
     --------------------------------------------------------------------- */

  /** Row `i` is the first row whose category is `category`. */
  predicate IsFirstRow(rows: seq<OrderRow>, category: string, i: int) {
    && 0 <= i < |rows|
    && rows[i].category == category
    && forall k :: 0 <= k < i ==> rows[k].category != category
  }

  /** `orderData.find(item => item.category === category)`, as an index. */
  function FirstRow(rows: seq<OrderRow>, category: string): (r: Option<nat>)
    ensures r.Some? ==> IsFirstRow(rows, category, r.value)
    ensures r.None? ==> forall k :: 0 <= k < |rows| ==> rows[k].category != category
  {
    if rows == [] then None
    else if rows[0].category == category then Some(0)
    else match FirstRow(rows[1..], category)
      case None => None
      case Some(i) => Some(i + 1)
  }

  /** `getOrderForCategory`: the first matching row's `file_order`, or the
      empty list when there is no such row or its `file_order` is null. */
  function OrderForCategory(rows: seq<OrderRow>, category: string): (r: seq<string>)
    ensures (forall k :: 0 <= k < |rows| ==> rows[k].category != category) ==> r == []
    ensures forall i :: IsFirstRow(rows, category, i) ==> r == rows[i].fileOrder.GetOr([])
  {
    match FirstRow(rows, category)
    case None => []
    case Some(i) => rows[i].fileOrder.GetOr([])
  }

  /** The list shown for `category`: a non-empty stored order verbatim,
      without checking it against storage; otherwise the listing's names in
      listing order. */
  function ShownList(rows: seq<OrderRow>, category: string, listing: seq<string>): (r: seq<string>)
    ensures forall i :: (IsFirstRow(rows, category, i) && rows[i].fileOrder.Some? && rows[i].fileOrder.value != []
                         ==> r == rows[i].fileOrder.value)
    ensures forall i :: (IsFirstRow(rows, category, i) && (rows[i].fileOrder.None? || rows[i].fileOrder.value == [])
                         ==> r == listing)
    ensures (forall k :: 0 <= k < |rows| ==> rows[k].category != category) ==> r == listing
  {
    var order := OrderForCategory(rows, category);
    if |order| > 0 then order else listing
  }

  /** The browser does not reconcile: a stored name no longer in storage is
      still shown, and a stored file missing from the order is not, whereas
      the admin editor drops the first and appends the second. */
  lemma ShownListIsNotReconciled()
    ensures var rows := [OrderRow(Categories.Explanation, Some(["A.pdf", "B.pdf"]))];
      && ShownList(rows, Categories.Explanation, ["B.pdf", "C.pdf"]) == ["A.pdf", "B.pdf"]
      && AdminPage.Reconcile(Some(["A.pdf", "B.pdf"]), ["B.pdf", "C.pdf"]) == ["B.pdf", "C.pdf"]
  {
    var rows := [OrderRow(Categories.Explanation, Some(["A.pdf", "B.pdf"]))];
    assert IsFirstRow(rows, Categories.Explanation, 0);
    AdminPage.ReconcileExample();
  }

  /** For every input with a non-empty stored order: a stored name that is
      no longer listed is shown by the browser and dropped by the admin
      merge; a listed name missing from the stored order is hidden by the
      browser and appended by the admin merge. */
  lemma ShownListDiffersFromReconcile(rows: seq<OrderRow>, category: string, i: int,
                                      order: seq<string>, listing: seq<string>, x: string)
    requires IsFirstRow(rows, category, i) && rows[i].fileOrder == Some(order) && order != []
    ensures x in order && x !in listing ==>
      x in ShownList(rows, category, listing) && x !in AdminPage.Reconcile(Some(order), listing)
    ensures x !in order && x in listing ==>
      x !in ShownList(rows, category, listing) && x in AdminPage.Reconcile(Some(order), listing)
  {
  }

  /** For a non-empty stored order, the browser and the admin editor show
      the same list only when the stored order names exactly the listed files. */
  lemma ShownListAgreesOnlyWhenInSync(rows: seq<OrderRow>, category: string, i: int,
                                      order: seq<string>, listing: seq<string>)
    requires IsFirstRow(rows, category, i) && rows[i].fileOrder == Some(order) && order != []
    requires ShownList(rows, category, listing) == AdminPage.Reconcile(Some(order), listing)
    ensures forall x :: x in order <==> x in listing
  {
    forall x ensures x in order <==> x in listing {
      ShownListDiffersFromReconcile(rows, category, i, order, listing, x);
    }
  }

  /** When the stored order names exactly the listed files, the browser and
      the admin editor show the same list. */
  lemma ShownListAgreesWhenInSync(rows: seq<OrderRow>, category: string, i: int,
                                  order: seq<string>, listing: seq<string>)
    requires IsFirstRow(rows, category, i) && rows[i].fileOrder == Some(order)
    requires forall x :: x in order <==> x in listing
    ensures ShownList(rows, category, listing) == AdminPage.Reconcile(Some(order), listing)
  {
    AdminPage.ReconcileInSync(order, listing);
    if order == [] {
      AdminPage.ReconcileEmptyStored(listing);
    }
  }

  /* ---------------------------------------------------------------------
     Checking the fetched answers
     --------------------------------------------------------------------- */

  /** The first error in the order the checks are made, if any. */
  function FirstError(errors: seq<Option<string>>): (r: Option<string>)
    ensures r.None? <==> forall i :: 0 <= i < |errors| ==> errors[i].None?
    ensures forall i :: (0 <= i < |errors| && errors[i].Some? && (forall k :: 0 <= k < i ==> errors[k].None?)
                         ==> r == errors[i])
  {
    if errors == [] then None
    else if errors[0].Some? then errors[0]
    else FirstError(errors[1..])
  }

  /** The suffix test of the pattern
      `/\.pdf$/`: a case-sensitive `.pdf` at the very end of the name. */
  predicate HasPdfSuffix(name: string) {
    |name| >= 4 && name[|name| - 4..] == ".pdf"
  }

  /** `file.replace(/\.pdf$/, "")`: one trailing `.pdf` removed, if present. */
  function Label(name: string): (text: string)
    ensures HasPdfSuffix(name) ==> text + ".pdf" == name
    ensures !HasPdfSuffix(name) ==> text == name
  {
    if HasPdfSuffix(name) then name[..|name| - 4] else name
  }

  /** Any base name comes back from its `.pdf` file name, and only one
      suffix is removed: `Label("a.pdf.pdf") == "a.pdf"`. */
  lemma LabelOfPdfName(base: string)
    ensures Label(base + ".pdf") == base
  {
    var name := base + ".pdf";
    assert name[|name| - 4..] == ".pdf";
    assert name[..|name| - 4] == base;
  }

  /* ---------------------------------------------------------------------
     The browser's state
     --------------------------------------------------------------------- */

  class CategoryBrowser {
    var selectedCategory: string
    var selectedFile: string
    var selectedIndex: int
    var alternativeConstitutionFiles: seq<string>
    var explanationFiles: seq<string>
    var listenUpFiles: seq<string>
    var loading: bool
    var error: Option<string>
    var showPdf: bool

    constructor ()
      ensures selectedCategory == "" && selectedFile == "" && selectedIndex == -1
      ensures alternativeConstitutionFiles == [] && explanationFiles == [] && listenUpFiles == []
      ensures loading && error == None && !showPdf
    {
      selectedCategory := "";
      selectedFile := "";
      selectedIndex := -1;
      alternativeConstitutionFiles := [];
      explanationFiles := [];
      listenUpFiles := [];
      loading := true;
      error := None;
      showPdf := false;
    }

    /** The item `index` of `category` is drawn highlighted
        (`getButtonClass` and `getIndicatorClass` share this test). */
    predicate IsHighlighted(category: string, index: int)
      reads this
    {
      selectedCategory == category && selectedIndex == index
    }

    /** The document viewer is rendered. */
    predicate ViewerShown()
      reads this
    {
      showPdf && selectedCategory != ""
    }

    /** `fetchFolderFiles`: `orders` answers the select of all order rows,
        the other three the listings of the three folders. The order error
        is checked first, then the listings in category order; the first
        error found is reported and no list is set. */
    method FetchFolderFiles(orders: Response<seq<OrderRow>>, alt: Response<seq<string>>,
                            exp: Response<seq<string>>, listen: Response<seq<string>>)
      modifies this
      ensures !loading
      ensures var first := FirstError([orders.error, alt.error, exp.error, listen.error]);
        first.Some? ==>
          && error == first
          && alternativeConstitutionFiles == old(alternativeConstitutionFiles)
          && explanationFiles == old(explanationFiles) && listenUpFiles == old(listenUpFiles)
      ensures var first := FirstError([orders.error, alt.error, exp.error, listen.error]);
        var complete := orders.data.Some? && alt.data.Some? && exp.data.Some? && listen.data.Some?;
        first.None? && !complete ==>
          && error == Some(NoFilesMessage)
          && alternativeConstitutionFiles == old(alternativeConstitutionFiles)
          && explanationFiles == old(explanationFiles) && listenUpFiles == old(listenUpFiles)
      ensures var first := FirstError([orders.error, alt.error, exp.error, listen.error]);
        var complete := orders.data.Some? && alt.data.Some? && exp.data.Some? && listen.data.Some?;
        first.None? && complete ==>
          && error == None
          && alternativeConstitutionFiles
             == ShownList(orders.data.value, Categories.AlternativeConstitution, alt.data.value)
          && explanationFiles == ShownList(orders.data.value, Categories.Explanation, exp.data.value)
          && listenUpFiles == ShownList(orders.data.value, Categories.ListenUp, listen.data.value)
      ensures selectedCategory == old(selectedCategory) && selectedFile == old(selectedFile)
      ensures selectedIndex == old(selectedIndex) && showPdf == old(showPdf)
    {
      loading := true;
      error := None;
      ghost var errors := [orders.error, alt.error, exp.error, listen.error];
      assert errors[0] == orders.error && errors[1] == alt.error;
      assert errors[2] == exp.error && errors[3] == listen.error;
      if orders.error.Some? {
        error := orders.error;
      } else if alt.error.Some? {
        error := alt.error;
      } else if exp.error.Some? {
        error := exp.error;
      } else if listen.error.Some? {
        error := listen.error;
      } else if alt.data.Some? && exp.data.Some? && listen.data.Some? && orders.data.Some? {
        var rows := orders.data.value;
        alternativeConstitutionFiles := ShownList(rows, Categories.AlternativeConstitution, alt.data.value);
        explanationFiles := ShownList(rows, Categories.Explanation, exp.data.value);
        listenUpFiles := ShownList(rows, Categories.ListenUp, listen.data.value);
      } else {
        error := Some(NoFilesMessage);
      }
      loading := false;
    }

    /** `handleButtonClick(category, index, fileName)`. */
    method Select(category: string, index: int, fileName: string)
      modifies this
      ensures selectedCategory == category && selectedIndex == index && selectedFile == fileName && showPdf
      ensures ViewerShown() <==> category != ""
      ensures forall c, i :: IsHighlighted(c, i) <==> c == category && i == index
      ensures alternativeConstitutionFiles == old(alternativeConstitutionFiles)
      ensures explanationFiles == old(explanationFiles) && listenUpFiles == old(listenUpFiles)
      ensures loading == old(loading) && error == old(error)
    {
      selectedCategory := category;
      selectedIndex := index;
      selectedFile := fileName;
      showPdf := true;
    }

    /** `handleClosePdf`: the viewer closes and no rendered item (their
        indices are never negative) stays highlighted; the category is kept. */
    method ClosePdf()
      modifies this
      ensures !showPdf && selectedIndex == -1 && selectedFile == ""
      ensures selectedCategory == old(selectedCategory)
      ensures !ViewerShown()
      ensures forall c, i :: 0 <= i ==> !IsHighlighted(c, i)
      ensures alternativeConstitutionFiles == old(alternativeConstitutionFiles)
      ensures explanationFiles == old(explanationFiles) && listenUpFiles == old(listenUpFiles)
      ensures loading == old(loading) && error == old(error)
    {
      showPdf := false;
      selectedIndex := -1;
      selectedFile := "";
    }
  }
}
