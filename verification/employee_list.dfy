/** The employee list page, without its rendering: the list it shows and
    reloads from the store, the table/list toggle, the delete flow with its
    confirmation and failure alert, the edit navigation, and the labels the
    views build for departments and positions. */
module EmployeeList {
  import opened Common
  import opened Strings
  import Localization
  import DataStore
  import EmployeeForm
  import EnglishTable
  import TurkishTable

  const TableMode: string := "table"
  const ListMode: string := "list"

  /** The page's state: the employees it shows and the view mode. */
  datatype Page = Page(employees: seq<DataStore.Record>, viewMode: string)

  /** The view mode is one of the two the toggle offers. */
  predicate ValidView(p: Page) {
    p.viewMode == TableMode || p.viewMode == ListMode
  }

  /** The constructor: no employees, table view. */
  function New(): (p: Page)
    ensures p.employees == [] && p.viewMode == TableMode && ValidView(p)
  {
    Page([], TableMode)
  }

  /** `loadEmployeeData()`, also run when the page is attached: the list
      becomes the store's. */
  function LoadEmployeeData(p: Page, s: DataStore.Store): (r: Page)
    ensures r.employees == s.employees && r.viewMode == p.viewMode
  {
    p.(employees := DataStore.GetEmployees(s))
  }

  /** `setViewMode(mode)`: only `table` and `list` are taken; anything else
      leaves the page as it is. */
  function SetViewMode(p: Page, mode: string): (r: Page)
    ensures mode == TableMode || mode == ListMode ==> r.viewMode == mode
    ensures mode != TableMode && mode != ListMode ==> r == p
    ensures r.employees == p.employees
    ensures ValidView(p) ==> ValidView(r)
  {
    if mode == TableMode || mode == ListMode then p.(viewMode := mode) else p
  }

  /** A run of toggle requests, applied in order. */
  function SetViewModes(p: Page, requests: seq<string>): Page
    decreases |requests|
  {
    if requests == [] then p else SetViewModes(SetViewMode(p, requests[0]), requests[1..])
  }

  /** Whatever is requested, the page stays in one of the two views and
      keeps its list; the last accepted request decides the view. */
  lemma {:induction false} ViewStaysValid(p: Page, requests: seq<string>)
    requires ValidView(p)
    ensures ValidView(SetViewModes(p, requests))
    ensures SetViewModes(p, requests).employees == p.employees
    decreases |requests|
  {
    if requests != [] {
      ViewStaysValid(SetViewMode(p, requests[0]), requests[1..]);
    }
  }

  /** What the page body shows. */
  datatype Body = NoEmployees | TableView | CardView

  /** The body choice: the empty message when there is nobody, otherwise
      the table in table mode and the cards in any other mode. */
  function ChooseBody(p: Page): (b: Body)
    ensures b == NoEmployees <==> p.employees == []
  {
    if |p.employees| == 0 then NoEmployees
    else if p.viewMode == TableMode then TableView
    else CardView
  }

  /** With a valid view, the cards show exactly when the list is non-empty
      and the list view was chosen, and the toggle decides between table
      and cards. */
  lemma BodyFollowsToggle(p: Page, mode: string)
    requires ValidView(p) && p.employees != []
    ensures ChooseBody(p) == CardView <==> p.viewMode == ListMode
    ensures mode == TableMode ==> ChooseBody(SetViewMode(p, mode)) == TableView
    ensures mode == ListMode ==> ChooseBody(SetViewMode(p, mode)) == CardView
  {
  }

  // ---------------------------------------------------------------------
  // Edit and delete

  /** `employee && employee.id`: an employee is there and its id is a
      non-empty string. */
  predicate Actionable(employee: Option<DataStore.Record>) {
    employee.Some? && DataStore.IdField in employee.value && employee.value[DataStore.IdField] != ""
  }

  /** `handleEdit(employee)`: the edit route of the employee's id, or no
      navigation when there is no usable id. */
  function HandleEdit(employee: Option<DataStore.Record>): (r: Option<string>)
    ensures r.Some? <==> Actionable(employee)
    ensures r.Some? ==> r.value == "/employees/edit/" + employee.value[DataStore.IdField]
  {
    if Actionable(employee) then Some("/employees/edit/" + employee.value[DataStore.IdField]) else None
  }

  /** The edit route leads back to the id: stripping the route prefix gives
      the id the form then loads. */
  lemma EditRouteCarriesId(employee: Option<DataStore.Record>)
    requires Actionable(employee)
    ensures var path := HandleEdit(employee).value;
      |path| > |"/employees/edit/"| && path[|"/employees/edit/"|..] == employee.value[DataStore.IdField]
  {
  }

  /** A record field in a template literal: its value, or `undefined` when
      the record has no such field. */
  function Interpolated(rec: DataStore.Record, key: string): string {
    if key in rec then rec[key] else "undefined"
  }

  /** `${employee.firstName} ${employee.lastName}`. */
  function FullName(rec: DataStore.Record): string {
    Interpolated(rec, "firstName") + " " + Interpolated(rec, "lastName")
  }

  /** The confirmation asked before a delete. */
  function DeletePrompt(l: Localization.Locale, name: string): string {
    Localization.Translate(l, "confirm_delete_employee",
      [("name", name), ("fallback", "Are you sure you want to delete " + name + "?")])
  }

  /** The alert shown when the store finds nothing to delete. */
  function DeleteAlert(l: Localization.Locale, name: string): string {
    Localization.Translate(l, "error_delete_employee",
      [("name", name), ("fallback", "Could not delete employee " + name
        + ". The record might have already been removed or an error occurred.")])
  }

  /** The page, the store, the confirmation asked and the alert shown by
      one delete. */
  datatype Deletion = Deletion(page: Page, store: DataStore.Store, prompt: Option<string>, alert: Option<string>)

  /** `handleDelete(employee)` with the user's answer `confirmed`: nothing
      happens without a usable id; otherwise the user is asked, and on a
      yes the store deletes by id; a delete that removed something reloads
      the list, one that did not shows the failure alert. */
  function HandleDelete(p: Page, employee: Option<DataStore.Record>, confirmed: bool,
                        s: DataStore.Store, c: DataStore.Codec, l: Localization.Locale): (r: Deletion)
    ensures !Actionable(employee) ==> r == Deletion(p, s, None, None)
    ensures Actionable(employee) ==> r.prompt == Some(DeletePrompt(l, FullName(employee.value)))
    ensures Actionable(employee) && !confirmed ==> r.page == p && r.store == s && r.alert == None
    ensures Actionable(employee) && confirmed ==>
      var id := employee.value[DataStore.IdField];
      && r.store == DataStore.DeleteEmployee(s, id, c).store
      && (DataStore.FreshId(s.employees, id) <==> r.alert.Some?)
      && (r.alert.Some? ==> r.page == p && r.store == s
                            && r.alert.value == DeleteAlert(l, FullName(employee.value)))
      && (r.alert.None? ==> r.page == LoadEmployeeData(p, r.store))
  {
    if !Actionable(employee) then Deletion(p, s, None, None)
    else
      var rec := employee.value;
      var name := FullName(rec);
      var prompt := Some(DeletePrompt(l, name));
      if !confirmed then Deletion(p, s, prompt, None)
      else
        var d := DataStore.DeleteEmployee(s, rec[DataStore.IdField], c);
        if d.removed then Deletion(LoadEmployeeData(p, d.store), d.store, prompt, None)
        else Deletion(p, s, prompt, Some(DeleteAlert(l, name)))
  }

  /** The page shows the store's list. */
  predicate Synced(p: Page, s: DataStore.Store) {
    p.employees == s.employees
  }

  /** A delete keeps the page showing the store's list, whatever the answer
      and whatever the store finds. */
  lemma DeleteKeepsSynced(p: Page, employee: Option<DataStore.Record>, confirmed: bool,
                          s: DataStore.Store, c: DataStore.Codec, l: Localization.Locale)
    requires Synced(p, s)
    ensures var r := HandleDelete(p, employee, confirmed, s, c, l); Synced(r.page, r.store)
  {
  }

  /** Confirming the delete of a shown employee with unique ids removes
      exactly that row, keeping the others in order, with no alert. */
  lemma DeleteShownRemovesRow(p: Page, i: nat, s: DataStore.Store, c: DataStore.Codec, l: Localization.Locale)
    requires Synced(p, s) && DataStore.UniqueIds(s.employees)
    requires i < |p.employees| && Actionable(Some(p.employees[i]))
    ensures var r := HandleDelete(p, Some(p.employees[i]), true, s, c, l);
      r.page.employees == p.employees[..i] + p.employees[i + 1..] && r.alert.None?
  {
    DataStore.DeleteRemovesOne(s, i, p.employees[i][DataStore.IdField], c);
  }

  /** Confirming the delete of an employee the store no longer has changes
      nothing and shows the failure alert. */
  lemma StaleDeleteAlerts(p: Page, rec: DataStore.Record, s: DataStore.Store, c: DataStore.Codec,
                          l: Localization.Locale)
    requires Actionable(Some(rec)) && DataStore.FreshId(s.employees, rec[DataStore.IdField])
    ensures var r := HandleDelete(p, Some(rec), true, s, c, l);
      r.page == p && r.store == s && r.alert == Some(DeleteAlert(l, FullName(rec)))
  {
  }

  /** In either language, the confirmation and the alert name the employee:
      each is the name between two fixed texts. */
  lemma DeleteMessagesNameEmployee(l: Localization.Locale, rec: DataStore.Record)
      returns (before: string, after: string, before': string, after': string)
    requires Localization.Valid(l) && '{' !in FullName(rec)
    ensures DeletePrompt(l, FullName(rec)) == before + FullName(rec) + after
    ensures DeleteAlert(l, FullName(rec)) == before' + FullName(rec) + after'
  {
    var name := FullName(rec);
    before, after := Localization.DeleteMessagesCarryName(l, "confirm_delete_employee", name,
      "Are you sure you want to delete " + name + "?");
    before', after' := Localization.DeleteMessagesCarryName(l, "error_delete_employee", name,
      "Could not delete employee " + name
        + ". The record might have already been removed or an error occurred.");
  }

  // ---------------------------------------------------------------------
  // Display labels

  /** The key a department or position value is shown under: the prefix and
      the value in lower case. */
  function LabelKey(prefix: string, value: string): string {
    prefix + AsciiLower(value)
  }

  /** The shown text for a department or position value, with the value as
      the `fallback` parameter. */
  function Label(l: Localization.Locale, prefix: string, value: string): string {
    Localization.Translate(l, LabelKey(prefix, value), [("fallback", value)])
  }

  /** Every department and position the form offers has a label in both
      languages. */
  lemma OfferedValuesHaveLabels(l: Localization.Locale)
    requires Localization.Valid(l)
    ensures forall d | d in EmployeeForm.Departments :: Localization.HasEntry(l, LabelKey("department_", d))
    ensures forall q | q in EmployeeForm.Positions :: Localization.HasEntry(l, LabelKey("position_", q))
  {
    EnglishTable.DisplayKeys();
    TurkishTable.DisplayKeys();
    OfferedKeys();
    forall d | d in EmployeeForm.Departments ensures Localization.HasEntry(l, LabelKey("department_", d)) {
      if d == "Analytics" {
        HasLabel(l, "department_analytics", "Analytics", "Analitik");
      } else {
        HasLabel(l, "department_tech", "Tech", "Teknoloji");
      }
    }
    forall q | q in EmployeeForm.Positions ensures Localization.HasEntry(l, LabelKey("position_", q)) {
      if q == "Junior" {
        HasLabel(l, "position_junior", "Junior", "Junior");
      } else if q == "Medior" {
        HasLabel(l, "position_medior", "Medior", "Medior");
      } else {
        HasLabel(l, "position_senior", "Senior", "Kıdemli (Senior)");
      }
    }
  }

  /** The label keys of the offered departments and positions. */
  lemma OfferedKeys()
    ensures LabelKey("department_", "Analytics") == "department_analytics"
    ensures LabelKey("department_", "Tech") == "department_tech"
    ensures LabelKey("position_", "Junior") == "position_junior"
    ensures LabelKey("position_", "Medior") == "position_medior"
    ensures LabelKey("position_", "Senior") == "position_senior"
  {
    assert AsciiLower("Analytics") == "analytics";
    assert AsciiLower("Tech") == "tech";
    assert AsciiLower("Junior") == "junior";
    assert AsciiLower("Medior") == "medior";
    assert AsciiLower("Senior") == "senior";
  }

  /** A key with a non-empty entry in both tables has one in the current
      language. */
  lemma HasLabel(l: Localization.Locale, key: string, en: string, tr: string)
    requires Localization.Valid(l)
    requires EnglishTable.En(key) == Some(en) && TurkishTable.Tr(key) == Some(tr)
    requires en != [] && tr != []
    ensures Localization.HasEntry(l, key)
  {
  }

  /** A value with no label shows its key, not the value: the `fallback`
      parameter only fills a `{{fallback}}` placeholder, and the key has
      none. */
  lemma UnlabelledValueShowsKey(l: Localization.Locale, prefix: string, value: string)
    requires !Localization.HasEntry(l, LabelKey(prefix, value))
    requires '{' !in prefix && '{' !in value
    ensures Label(l, prefix, value) == LabelKey(prefix, value)
  {
    var key := LabelKey(prefix, value);
    assert '{' !in AsciiLower(value) by {
      forall k | 0 <= k < |value| ensures AsciiLower(value)[k] != '{' {
        assert value[k] != '{';
      }
    }
    Localization.TranslateMissingBraceless(l, key, [("fallback", value)]);
  }
}
