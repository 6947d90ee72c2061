/**
 * The nomination form (script.js): six sections walked with Next and
 * Previous, the checks a section must pass before the form moves on, the
 * acceptance status the nomination type sets, and the list of nominations
 * the nominator builds before submitting them all: add, select, edit and
 * remove.
 *
 * The page is a parameter: the fields of the current section, the form's
 * entries and the two CV inputs as the browser holds them when a button is
 * pressed. The browser's URL parser is the parameter `parses`; the picture's
 * data URL is the parameter `dataUrl`.
 */
module Form {
  import opened Wrappers
  import Text
  import Objects
  import opened JsValues
  import FormData
  import Election
  import Admin

  /** `this.totalSections`. */
  const Sections: int := 6

  /** The word limit of the CV/bio text. */
  const MaxWords: nat := 100

  // ---------------------------------------------------------------------------
  // Checking a section

  datatype FieldKind = TextField | EmailField | UrlField

  /** An input of the current section: its `type`, whether it carries `required`, and its value. */
  datatype Field = Field(kind: FieldKind, required: bool, value: string)

  /** What the page holds when a button is pressed. */
  datatype Page = Page(
    fields: seq<Field>,
    entries: seq<FormData.Entry>,
    picture: Option<Value>,
    cvBioText: string,
    cvBioLink: string,
    infrastructureChosen: bool,
    nominationTypeChosen: bool)

  /**
   * `validateField`: a required field must not be blank; a non-blank e-mail
   * field must match `^[^\s@]+@[^\s@]+\.[^\s@]+$`; a non-blank URL field
   * must parse. The value is trimmed first.
   */
  function ValidateField(f: Field, parses: string -> bool): (ok: bool)
    ensures f.required && Text.IsBlank(f.value) ==> !ok
    ensures !Text.IsBlank(f.value) && f.kind == EmailField ==> (ok <==> Text.MatchesEmailPattern(Text.Trim(f.value)))
    ensures !Text.IsBlank(f.value) && f.kind == UrlField ==> (ok <==> parses(Text.Trim(f.value)))
    ensures !f.required && Text.IsBlank(f.value) ==> ok
    ensures f.kind == TextField && !Text.IsBlank(f.value) ==> ok
  {
    var v := Text.Trim(f.value);
    Text.EmailTestMatchesPattern(v);
    if f.required && v == "" then false
    else if f.kind == EmailField && v != "" then Text.IsEmail(v)
    else if f.kind == UrlField && v != "" then parses(v)
    else true
  }

  /** What `validateCvBioInputs` accepts: some CV text or link, and no more than 100 words of text. */
  predicate CvBioOk(text: string, link: string) {
    !(Text.IsBlank(text) && Text.IsBlank(link)) && |Text.Words(Text.Trim(text))| <= MaxWords
  }

  /**
   * `validateCvBioInputs`: both inputs blank fails; otherwise the trimmed
   * text split on white space must have at most 100 words.
   */
  method ValidateCvBioInputs(cvBioText: string, cvBioLink: string) returns (ok: bool)
    ensures ok <==> !(Text.IsBlank(cvBioText) && Text.IsBlank(cvBioLink)) && |Text.Words(Text.Trim(cvBioText))| <= MaxWords
  {
    var text := Text.Trim(cvBioText);
    var link := Text.Trim(cvBioLink);
    if text == "" && link == "" {
      return false;
    }
    if text != "" {
      var n := Text.CountWords(text);
      if n > MaxWords {
        return false;
      }
    }
    return true;
  }

  /** Every required field of the list passes `validateField`. */
  predicate FieldsOk(fields: seq<Field>, parses: string -> bool) {
    forall i :: 0 <= i < |fields| && fields[i].required ==> ValidateField(fields[i], parses)
  }

  /**
   * When a section lets the form move on. The three informational sections
   * always do; the others need every required field valid, section 6 the
   * CV/bio and the infrastructure answer, and section 5 a nomination type.
   */
  predicate SectionOk(section: int, page: Page, parses: string -> bool) {
    section <= 3
    || (FieldsOk(page.fields, parses)
        && (section == 6 ==> CvBioOk(page.cvBioText, page.cvBioLink) && page.infrastructureChosen)
        && (section == 5 ==> page.nominationTypeChosen))
  }

  /**
   * `validateCurrentSection`: every required field is checked (all of them,
   * so each shows its error), then the section's own questions.
   */
  method ValidateCurrentSection(section: int, page: Page, parses: string -> bool) returns (ok: bool)
    ensures section <= 3 ==> ok
    ensures section > 3 ==>
      (ok <==> (forall i :: 0 <= i < |page.fields| && page.fields[i].required ==> ValidateField(page.fields[i], parses))
               && (section == 6 ==> CvBioOk(page.cvBioText, page.cvBioLink) && page.infrastructureChosen)
               && (section == 5 ==> page.nominationTypeChosen))
  {
    if section <= 3 {
      return true;
    }
    ok := true;
    var i := 0;
    while i < |page.fields|
      invariant 0 <= i <= |page.fields|
      invariant ok <==> forall j :: 0 <= j < i && page.fields[j].required ==> ValidateField(page.fields[j], parses)
    {
      var f := page.fields[i];
      if f.required && !ValidateField(f, parses) {
        ok := false;
      }
      i := i + 1;
    }
    if section == 6 {
      var cvOk := ValidateCvBioInputs(page.cvBioText, page.cvBioLink);
      if !cvOk || !page.infrastructureChosen {
        ok := false;
      }
    }
    if section == 5 && !page.nominationTypeChosen {
      ok := false;
    }
  }

  // ---------------------------------------------------------------------------
  // The acceptance status

  /**
   * `updateAcceptanceStatus`: the read-only status field says `Accepted`
   * for a self-nomination, `Pending` for a third-party one and nothing when
   * no type is chosen; a radio with any other value leaves it as it was.
   */
  function AcceptanceStatus(choice: Option<string>, current: string): (r: string)
    ensures choice == Some("self") ==> r == "Accepted"
    ensures choice == Some("third-party") ==> r == "Pending"
    ensures choice.None? ==> r == ""
    ensures choice.Some? && choice.value != "self" && choice.value != "third-party" ==> r == current
  {
    match choice
    case None => ""
    case Some(c) => if c == "self" then "Accepted" else if c == "third-party" then "Pending" else current
  }

  /**
   * Once approved, a nomination stands on the ballot straight away exactly
   * when it was a self-nomination, or the status field already said
   * `Accepted` under a radio of another value.
   */
  lemma SelfNominationStands(n: Election.Nomination, choice: Option<string>, current: string)
    requires n.status == Some("approved")
    requires n.acceptanceStatus == Some(AcceptanceStatus(choice, current))
    ensures Election.IsBallotCandidate(n) <==>
      choice == Some("self") || (choice.Some? && choice.value != "third-party" && current == "Accepted")
  {
  }

  /** A third-party nomination, or one without a type, shows as pending on the admin page until the nominee answers. */
  lemma ThirdPartyShowsPending(n: Election.Nomination, choice: Option<string>, current: string)
    requires choice == Some("third-party") || choice.None?
    requires n.acceptanceStatus == Some(AcceptanceStatus(choice, current))
    ensures Admin.AcceptanceLabel(n) == "Pending"
    ensures !Election.IsBallotCandidate(n)
  {
  }

  // ---------------------------------------------------------------------------
  // The form's state

  /** Which of the two panels shows: the form or the summary of nominations. */
  datatype View = FormView | SummaryView

  /** The fields of `NominationForm` the operations read and write. */
  datatype State = State(
    currentSection: int,
    nominations: seq<Props>,
    selected: int,
    isEditing: bool,
    editingIndex: int,
    view: View)

  /** The constructor's state. */
  const Initial: State := State(1, [], -1, false, -1, FormView)

  /**
   * What holds between any two clicks: the section is one of the six, the
   * selection is none or a listed nomination, the index being edited is a
   * listed nomination exactly while editing, and the summary never shows
   * while an edit is open.
   */
  predicate WellFormed(st: State) {
    1 <= st.currentSection <= Sections
    && -1 <= st.selected < |st.nominations|
    && (st.isEditing ==> 0 <= st.editingIndex < |st.nominations|)
    && (!st.isEditing ==> st.editingIndex == -1)
    && (st.view == SummaryView ==> !st.isEditing)
  }

  /** `nextSection`: forward one section when the current one passes its checks and is not the last. */
  function Next(st: State, page: Page, parses: string -> bool): (r: State)
    requires 1 <= st.currentSection <= Sections
    ensures 1 <= r.currentSection <= Sections
    ensures r.currentSection == st.currentSection + 1 <==> SectionOk(st.currentSection, page, parses) && st.currentSection < Sections
    ensures r.currentSection != st.currentSection + 1 ==> r == st
    ensures r == st.(currentSection := r.currentSection)
  {
    if SectionOk(st.currentSection, page, parses) && st.currentSection < Sections then
      st.(currentSection := st.currentSection + 1)
    else st
  }

  /** `prevSection`: back one section unless on the first. */
  function Prev(st: State): (r: State)
    requires 1 <= st.currentSection <= Sections
    ensures 1 <= r.currentSection <= Sections
    ensures r.currentSection == st.currentSection - 1 <==> st.currentSection > 1
    ensures r.currentSection != st.currentSection - 1 ==> r == st
    ensures r == st.(currentSection := r.currentSection)
  {
    if st.currentSection > 1 then st.(currentSection := st.currentSection - 1) else st
  }

  /** Previous undoes a Next that moved, and Next undoes a Previous when the section it returns to passes. */
  lemma NextPrevRoundTrip(st: State, page: Page, parses: string -> bool)
    requires 1 <= st.currentSection <= Sections
    ensures Next(st, page, parses) != st ==> Prev(Next(st, page, parses)) == st
    ensures Prev(st) != st && SectionOk(Prev(st).currentSection, page, parses) ==> Next(Prev(st), page, parses) == st
  {
  }

  /** The informational sections never hold the nominator back. */
  lemma InformationSectionsPass(st: State, page: Page, parses: string -> bool)
    requires 1 <= st.currentSection <= 3
    ensures Next(st, page, parses).currentSection == st.currentSection + 1
  {
  }

  /** `clearForm`: the form is reset and shows its first section. */
  function ClearForm(st: State): (r: State)
    ensures r.currentSection == 1
    ensures r.(currentSection := st.currentSection) == st
  {
    st.(currentSection := 1)
  }

  /** `showNominationsSummary`: the summary shows the list with nothing selected. */
  function ShowSummary(st: State): (r: State)
    ensures r.view == SummaryView && r.selected == -1
    ensures r.(view := st.view, selected := st.selected) == st
  {
    st.(view := SummaryView, selected := -1)
  }

  /** `startNewNomination`: a fresh form, no selection. */
  function StartNew(st: State): (r: State)
    ensures r.view == FormView && r.currentSection == 1 && r.selected == -1
    ensures r.nominations == st.nominations && r.isEditing == st.isEditing && r.editingIndex == st.editingIndex
  {
    ClearForm(st).(view := FormView, selected := -1)
  }

  /**
   * The `profilePictureFile` value collection ends with: the chosen
   * picture, or else whatever the entries held under that name.
   */
  function CollectedPicture(page: Page): Value {
    if page.picture.Some? then page.picture.value else Read(FormData.Fold(page.entries), "profilePictureFile")
  }

  /**
   * The nomination `addNomination` builds from the page: the collected data
   * with the picture's fields. Collection fails when a checkbox group holds
   * a file (`value.trim` throws) or when the picture value is truthy but
   * not a file (`readAsDataURL` rejects it). Otherwise the plain names hold
   * what the entries gave, the CV text and link their trimmed values when
   * non-empty, and a chosen file adds its data URL, name and type.
   */
  function Collect(page: Page, dataUrl: string): (r: Option<Props>)
    ensures r.None? <==> FormData.Throws(page.entries) || (Truthy(CollectedPicture(page)) && !CollectedPicture(page).File?)
    ensures r.Some? ==> forall k :: k !in FormData.ExtraKeys && k !in FormData.PictureKeys ==>
      Objects.Get(r.value, k) == Objects.Get(FormData.Fold(page.entries), k)
    ensures r.Some? ==> Read(r.value, "profilePictureFile") == CollectedPicture(page)
    ensures r.Some? ==> var t := Text.Trim(page.cvBioText);
      Objects.Get(r.value, "cvBioText") == if t != "" then Some(Str(t)) else Objects.Get(FormData.Fold(page.entries), "cvBioText")
    ensures r.Some? ==> var l := Text.Trim(page.cvBioLink);
      Objects.Get(r.value, "cvBioLink") == if l != "" then Some(Str(l)) else Objects.Get(FormData.Fold(page.entries), "cvBioLink")
    ensures r.Some? && CollectedPicture(page).File? ==>
      Read(r.value, "profilePictureBase64") == Str(dataUrl)
      && Read(r.value, "profilePictureFileName") == Str(CollectedPicture(page).name)
      && Read(r.value, "profilePictureFileType") == Str(CollectedPicture(page).mime)
    ensures r.Some? && !Truthy(CollectedPicture(page)) ==>
      forall k :: k in FormData.PictureKeys ==> Objects.Get(r.value, k) == Objects.Get(FormData.Fold(page.entries), k)
  {
    var data := FormData.CollectFormData(page.entries, page.picture, page.cvBioText, page.cvBioLink);
    if data.None? then None
    else
      CollectedFields(page, data.value);
      PictureKeysNotExtra();
      var r := FormData.AttachPicture(data.value, dataUrl);
      if r.None? then None
      else
        PictureStepKeeps(data.value, r.value);
        r
  }

  /** What the collected data holds before the picture step. */
  lemma CollectedFields(page: Page, data: Props)
    requires Some(data) == FormData.CollectFormData(page.entries, page.picture, page.cvBioText, page.cvBioLink)
    ensures Read(data, "profilePictureFile") == CollectedPicture(page)
    ensures var t := Text.Trim(page.cvBioText);
      Objects.Get(data, "cvBioText") == if t != "" then Some(Str(t)) else Objects.Get(FormData.Fold(page.entries), "cvBioText")
    ensures var l := Text.Trim(page.cvBioLink);
      Objects.Get(data, "cvBioLink") == if l != "" then Some(Str(l)) else Objects.Get(FormData.Fold(page.entries), "cvBioLink")
    ensures forall k :: k !in FormData.ExtraKeys ==> Objects.Get(data, k) == Objects.Get(FormData.Fold(page.entries), k)
  {
  }

  /** The picture step's names are not among the names collection sets after its loop. */
  lemma PictureKeysNotExtra()
    ensures forall k :: k in FormData.PictureKeys ==> k !in FormData.ExtraKeys
  {
    forall k | k in FormData.PictureKeys
      ensures k !in FormData.ExtraKeys
    {
      assert |k| >= 20;
    }
  }

  /** The picture step leaves the picture value and the CV fields as they were. */
  lemma PictureStepKeeps(data: Props, r: Props)
    requires forall k :: k !in FormData.PictureKeys ==> Objects.Get(r, k) == Objects.Get(data, k)
    ensures Read(r, "profilePictureFile") == Read(data, "profilePictureFile")
    ensures Objects.Get(r, "cvBioText") == Objects.Get(data, "cvBioText")
    ensures Objects.Get(r, "cvBioLink") == Objects.Get(data, "cvBioLink")
  {
    assert "profilePictureFile" !in FormData.PictureKeys;
    assert "cvBioText" !in FormData.PictureKeys;
    assert "cvBioLink" !in FormData.PictureKeys;
  }

  /**
   * The list after saving `data`: it replaces the nomination being edited,
   * or joins the end of the list; the edit is closed.
   */
  function Save(st: State, data: Props): (r: State)
    requires st.isEditing && st.editingIndex > -1 ==> st.editingIndex < |st.nominations|
    ensures !r.isEditing && r.editingIndex == -1
    ensures r.currentSection == st.currentSection && r.selected == st.selected && r.view == st.view
    ensures st.isEditing && st.editingIndex > -1 ==>
      |r.nominations| == |st.nominations|
      && r.nominations[st.editingIndex] == data
      && forall j :: 0 <= j < |st.nominations| && j != st.editingIndex ==> r.nominations[j] == st.nominations[j]
    ensures !(st.isEditing && st.editingIndex > -1) ==>
      |r.nominations| == |st.nominations| + 1
      && r.nominations[|st.nominations|] == data
      && forall j :: 0 <= j < |st.nominations| ==> r.nominations[j] == st.nominations[j]
  {
    if st.isEditing && st.editingIndex > -1 then
      st.(nominations := st.nominations[st.editingIndex := data], isEditing := false, editingIndex := -1)
    else st.(nominations := st.nominations + [data], isEditing := false, editingIndex := -1)
  }

  /**
   * `addNomination`. The section must pass its checks; collecting the data
   * and reading the picture must not fail (a failure shows an error and
   * leaves everything as it was). The nomination is then saved into the
   * list and the summary shows a cleared form.
   */
  function AddNomination(st: State, page: Page, parses: string -> bool, dataUrl: string): (r: State)
    requires st.isEditing && st.editingIndex > -1 ==> st.editingIndex < |st.nominations|
    ensures !SectionOk(st.currentSection, page, parses) || Collect(page, dataUrl).None? ==> r == st
    ensures SectionOk(st.currentSection, page, parses) && Collect(page, dataUrl).Some? ==>
      var saved := Save(st, Collect(page, dataUrl).value);
      r.nominations == saved.nominations
      && r.view == SummaryView && r.selected == -1 && r.currentSection == 1
      && !r.isEditing && r.editingIndex == -1
  {
    if !SectionOk(st.currentSection, page, parses) then st
    else match Collect(page, dataUrl)
      case None => st
      case Some(data) => ShowSummary(ClearForm(Save(st, data)))
  }

  /** `selectNomination`: a click on the listed nomination `index` selects it. */
  function Select(st: State, index: int): (r: State)
    requires 0 <= index < |st.nominations|
    ensures r.selected == index
    ensures r.(selected := st.selected) == st
  {
    st.(selected := index)
  }

  /**
   * `editSelectedNomination`: with nothing selected only an error shows;
   * otherwise the selected nomination opens in the form on its last
   * section, and saving it will replace it.
   */
  function EditSelected(st: State): (r: State)
    requires -1 <= st.selected < |st.nominations|
    ensures st.selected == -1 ==> r == st
    ensures st.selected != -1 ==>
      r.isEditing && r.editingIndex == st.selected && r.currentSection == Sections && r.view == FormView
      && r.nominations == st.nominations && r.selected == st.selected
  {
    if st.selected == -1 then st
    else st.(isEditing := true, editingIndex := st.selected, currentSection := Sections, view := FormView)
  }

  /**
   * `removeSelectedNomination`: with nothing selected, or when the nominator
   * does not confirm, nothing changes. Otherwise the selected nomination
   * leaves the list, the others keep their order, and the summary shows
   * again, or the form when the list is now empty.
   */
  function RemoveSelected(st: State, confirmed: bool): (r: State)
    requires -1 <= st.selected < |st.nominations|
    ensures st.selected == -1 || !confirmed ==> r == st
    ensures st.selected != -1 && confirmed ==>
      |r.nominations| == |st.nominations| - 1
      && (forall j :: 0 <= j < st.selected ==> r.nominations[j] == st.nominations[j])
      && (forall j :: st.selected <= j < |r.nominations| ==> r.nominations[j] == st.nominations[j + 1])
      && r.selected == -1
      && r.view == (if |r.nominations| == 0 then FormView else SummaryView)
      && r.currentSection == st.currentSection && r.isEditing == st.isEditing && r.editingIndex == st.editingIndex
  {
    if st.selected == -1 || !confirmed then st
    else
      var i := st.selected;
      var rest := st.(nominations := st.nominations[..i] + st.nominations[i + 1..], selected := -1);
      if |rest.nominations| == 0 then rest.(view := FormView) else ShowSummary(rest)
  }

  /**
   * The page load: nominations kept in the browser's storage from an
   * earlier visit come back and the summary shows; with none saved the form
   * starts empty.
   */
  function Restore(saved: seq<Props>): (r: State)
    ensures WellFormed(r)
    ensures r.nominations == saved
    ensures r.view == SummaryView <==> |saved| > 0
  {
    if |saved| > 0 then ShowSummary(Initial.(nominations := saved)) else Initial
  }

  // ---------------------------------------------------------------------------
  // What the nominator can do, and what it keeps

  /** The buttons and clicks of the page. */
  datatype Action =
    | NextClicked(page: Page)
    | PrevClicked
    | AddClicked(page: Page, dataUrl: string)
    | StartNewClicked
    | NominationClicked(index: int)
    | EditClicked
    | RemoveClicked(confirmed: bool)

  /**
   * Which actions the page offers: the form's buttons while the form shows,
   * the summary's buttons and the listed nominations while the summary shows.
   */
  predicate Enabled(st: State, a: Action) {
    match a
    case NextClicked(_) => st.view == FormView
    case PrevClicked => st.view == FormView
    case AddClicked(_, _) => st.view == FormView
    case StartNewClicked => st.view == SummaryView
    case NominationClicked(index) => st.view == SummaryView && 0 <= index < |st.nominations|
    case EditClicked => st.view == SummaryView
    case RemoveClicked(_) => st.view == SummaryView
  }

  /** The state after the action. */
  function Apply(st: State, a: Action, parses: string -> bool): (r: State)
    requires WellFormed(st) && Enabled(st, a)
    ensures WellFormed(r)
  {
    match a
    case NextClicked(page) => Next(st, page, parses)
    case PrevClicked => Prev(st)
    case AddClicked(page, dataUrl) => AddNomination(st, page, parses, dataUrl)
    case StartNewClicked => StartNew(st)
    case NominationClicked(index) => Select(st, index)
    case EditClicked => EditSelected(st)
    case RemoveClicked(confirmed) => RemoveSelected(st, confirmed)
  }

  /** Applies the clicks in order; a click on something the page does not show does nothing. */
  function Run(st: State, actions: seq<Action>, parses: string -> bool): State
    requires WellFormed(st)
    decreases |actions|
  {
    if |actions| == 0 then st
    else if !Enabled(st, actions[0]) then Run(st, actions[1..], parses)
    else Run(Apply(st, actions[0], parses), actions[1..], parses)
  }

  /** Every enabled action keeps the invariant, so no sequence of clicks ever reads outside the list. */
  lemma {:induction false} RunKeepsWellFormed(st: State, actions: seq<Action>, parses: string -> bool)
    requires WellFormed(st)
    ensures WellFormed(Run(st, actions, parses))
    decreases |actions|
  {
    if |actions| > 0 {
      if Enabled(st, actions[0]) {
        RunKeepsWellFormed(Apply(st, actions[0], parses), actions[1..], parses);
      } else {
        RunKeepsWellFormed(st, actions[1..], parses);
      }
    }
  }

  /** Adding a nomination and then removing it (the last one listed) gives the list back. */
  lemma AddThenRemoveRestores(st: State, page: Page, parses: string -> bool, dataUrl: string)
    requires WellFormed(st) && !st.isEditing
    requires SectionOk(st.currentSection, page, parses) && Collect(page, dataUrl).Some?
    ensures var added := AddNomination(st, page, parses, dataUrl);
      |added.nominations| == |st.nominations| + 1
      && RemoveSelected(Select(added, |st.nominations|), true).nominations == st.nominations
  {
    var added := AddNomination(st, page, parses, dataUrl);
    var removed := RemoveSelected(Select(added, |st.nominations|), true);
    assert removed.nominations == added.nominations[..|st.nominations|];
  }

  /**
   * Selecting nomination `i`, editing it and saving the form replaces that
   * nomination and no other, keeps the list's length, and closes the edit.
   */
  lemma EditThenSaveReplacesOnly(st: State, i: int, page: Page, parses: string -> bool, dataUrl: string)
    requires WellFormed(st) && st.view == SummaryView && 0 <= i < |st.nominations|
    requires SectionOk(Sections, page, parses) && Collect(page, dataUrl).Some?
    ensures var saved := AddNomination(EditSelected(Select(st, i)), page, parses, dataUrl);
      |saved.nominations| == |st.nominations|
      && saved.nominations[i] == Collect(page, dataUrl).value
      && (forall j :: 0 <= j < |st.nominations| && j != i ==> saved.nominations[j] == st.nominations[j])
      && !saved.isEditing && saved.view == SummaryView
  {
  }
}
