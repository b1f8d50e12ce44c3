/** The add/edit employee form, without its rendering: field defaults and
    reset, editing one field, validation, the payload handed to the store,
    the add-or-update dispatch on submit, and the mode chosen from the
    route when the page is attached. Navigation is an emitted path. */
module EmployeeForm {
  import opened Common
  import opened Strings
  import Email
  import Localization
  import DataStore

  const Departments: seq<string> := ["Analytics", "Tech"]
  const Positions: seq<string> := ["Junior", "Medior", "Senior"]

  /** The path every completed submit, a cancel, and an unknown edit id go
      to. */
  const ListPath: string := "/employees"

  /** The form's input fields. */
  datatype Field =
    | FirstName | LastName | DateOfEmployment | DateOfBirth
    | PhoneNumber | EmailAddress | Department | Position

  const AllFields: set<Field> :=
    {FirstName, LastName, DateOfEmployment, DateOfBirth, PhoneNumber, EmailAddress, Department, Position}

  lemma InAllFields(g: Field)
    ensures g in AllFields
  {
    match g {
      case FirstName =>
      case LastName =>
      case DateOfEmployment =>
      case DateOfBirth =>
      case PhoneNumber =>
      case EmailAddress =>
      case Department =>
      case Position =>
    }
  }

  /** The values of the eight fields. */
  datatype Inputs = Inputs(
    firstName: string, lastName: string,
    dateOfEmployment: string, dateOfBirth: string,
    phoneNumber: string, emailAddress: string,
    department: string, position: string)

  /** `add` and `edit`; before the page is attached the mode is unset. The
      edit mode carries the id from the route. */
  datatype Mode = Unset | Add | Edit(id: string)

  /** The page's state: the values, the error shown per field (`null` once
      the field is edited), and the mode. */
  datatype Form = Form(inputs: Inputs, errors: map<Field, Option<string>>, mode: Mode)

  function Value(v: Inputs, g: Field): string {
    match g
    case FirstName => v.firstName
    case LastName => v.lastName
    case DateOfEmployment => v.dateOfEmployment
    case DateOfBirth => v.dateOfBirth
    case PhoneNumber => v.phoneNumber
    case EmailAddress => v.emailAddress
    case Department => v.department
    case Position => v.position
  }

  /** `this[name] = value` for a field name. */
  function WithValue(v: Inputs, g: Field, x: string): (r: Inputs)
    ensures Value(r, g) == x
    ensures forall h | h != g :: Value(r, h) == Value(v, h)
  {
    match g
    case FirstName => v.(firstName := x)
    case LastName => v.(lastName := x)
    case DateOfEmployment => v.(dateOfEmployment := x)
    case DateOfBirth => v.(dateOfBirth := x)
    case PhoneNumber => v.(phoneNumber := x)
    case EmailAddress => v.(emailAddress := x)
    case Department => v.(department := x)
    case Position => v.(position := x)
  }

  /** Writing a field the value it has changes nothing. */
  lemma WithSameValue(v: Inputs, g: Field)
    ensures WithValue(v, g, Value(v, g)) == v
  {
    match g {
      case FirstName =>
      case LastName =>
      case DateOfEmployment =>
      case DateOfBirth =>
      case PhoneNumber =>
      case EmailAddress =>
      case Department =>
      case Position =>
    }
  }

  /** The value a fresh or reset form shows in each field. */
  function Default(g: Field): string {
    match g
    case Department => Departments[0]
    case Position => Positions[0]
    case _ => ""
  }

  /** The constructor. */
  function New(): (f: Form)
    ensures forall g :: Value(f.inputs, g) == Default(g)
    ensures f.errors == map[] && f.mode == Unset
  {
    Form(Inputs("", "", "", "", "", "", Departments[0], Positions[0]), map[], Unset)
  }

  /** `resetFormFields()`: defaults and no errors; the mode is kept. */
  function Reset(f: Form): (r: Form)
    ensures forall g :: Value(r.inputs, g) == Default(g)
    ensures r.errors == map[] && r.mode == f.mode
  {
    New().(mode := f.mode)
  }

  /** A reset form is a fresh one in the same mode, and resetting twice is
      resetting once. */
  lemma ResetIsNew(f: Form)
    ensures Reset(f) == New().(mode := f.mode)
    ensures Reset(Reset(f)) == Reset(f)
  {
  }

  // ---------------------------------------------------------------------
  // Editing

  /** An error is shown while it is a non-empty message. */
  predicate ShowsError(f: Form, g: Field) {
    g in f.errors && f.errors[g].Some? && f.errors[g].value != ""
  }

  /** `handleInputChange`: the field takes the value; a shown error on that
      field is set to null, every other error is kept. */
  function HandleInputChange(f: Form, g: Field, x: string): (r: Form)
    ensures Value(r.inputs, g) == x
    ensures forall h | h != g :: Value(r.inputs, h) == Value(f.inputs, h)
    ensures ShowsError(f, g) ==> r.errors == f.errors[g := None]
    ensures !ShowsError(f, g) ==> r.errors == f.errors
    ensures r.mode == f.mode
  {
    var r := f.(inputs := WithValue(f.inputs, g, x));
    if ShowsError(f, g) then r.(errors := f.errors[g := None]) else r
  }

  /** After an edit the field shows no error, and the errors shown on other
      fields are those shown before. */
  lemma EditClearsOnlyItsError(f: Form, g: Field, x: string)
    ensures !ShowsError(HandleInputChange(f, g, x), g)
    ensures forall h | h != g :: ShowsError(HandleInputChange(f, g, x), h) == ShowsError(f, h)
  {
  }

  // ---------------------------------------------------------------------
  // Validation

  /** Names, phone and e-mail are checked after `trim`; dates are not. */
  predicate Trimmed(g: Field) {
    g == FirstName || g == LastName || g == PhoneNumber || g == EmailAddress
  }

  /** The two selects are never checked. */
  predicate Required(g: Field) {
    g != Department && g != Position
  }

  /** A field that counts as empty. */
  predicate Blank(v: Inputs, g: Field) {
    if Trimmed(g) then Trim(Value(v, g)) == "" else Value(v, g) == ""
  }

  function RequiredKey(g: Field): string {
    match g
    case FirstName => "validation_required_firstName"
    case LastName => "validation_required_lastName"
    case DateOfEmployment => "validation_required_dateOfEmployment"
    case DateOfBirth => "validation_required_dateOfBirth"
    case PhoneNumber => "validation_required_phoneNumber"
    case EmailAddress => "validation_required_emailAddress"
    case _ => ""
  }

  const InvalidEmailKey: string := "validation_invalid_emailAddress"

  /** The message key of the check a field fails, if any. */
  function Problem(v: Inputs, g: Field): Option<string> {
    if !Required(g) then None
    else if Blank(v, g) then Some(RequiredKey(g))
    else if g == EmailAddress && !Email.IsEmail(v.emailAddress) then Some(InvalidEmailKey)
    else None
  }

  /** The translated message of every failed check. */
  function Errors(v: Inputs, l: Localization.Locale): map<Field, Option<string>> {
    map g | g in AllFields && Problem(v, g).Some? ::
      Some(Localization.Translate(l, Problem(v, g).value, []))
  }

  /** The form with its error map replaced, and whether it is empty. */
  datatype Validated = Validated(form: Form, ok: bool)

  /** `validateForm()`: a required-field error for each blank required field;
      for a non-blank e-mail that does not have the shape, the invalid-email
      error, matched against the untrimmed value. The error map is replaced by the
      new one, and the result says whether it is empty. */
  function ValidateForm(f: Form, l: Localization.Locale): (r: Validated)
    ensures r.form.inputs == f.inputs && r.form.mode == f.mode
    ensures r.ok <==> r.form.errors == map[]
    ensures forall g | g != EmailAddress :: g in r.form.errors <==> Required(g) && Blank(f.inputs, g)
    ensures EmailAddress in r.form.errors <==>
      Blank(f.inputs, EmailAddress) || !Email.IsEmail(f.inputs.emailAddress)
    ensures forall g | g in r.form.errors && Blank(f.inputs, g) ::
      r.form.errors[g] == Some(Localization.Translate(l, RequiredKey(g), []))
    ensures EmailAddress in r.form.errors && !Blank(f.inputs, EmailAddress) ==>
      r.form.errors[EmailAddress] == Some(Localization.Translate(l, InvalidEmailKey, []))
  {
    var errors := Errors(f.inputs, l);
    forall g ensures g in AllFields {
      InAllFields(g);
    }
    Validated(f.(errors := errors), errors == map[])
  }

  /** Validation looks only at the values: validating again changes
      nothing, and a field edit with the value it had keeps the verdict. */
  lemma ValidateIsStable(f: Form, l: Localization.Locale, g: Field)
    ensures ValidateForm(ValidateForm(f, l).form, l) == ValidateForm(f, l)
    ensures ValidateForm(HandleInputChange(f, g, Value(f.inputs, g)), l).ok == ValidateForm(f, l).ok
  {
    WithSameValue(f.inputs, g);
  }

  /** Every required field of a fresh form is blank. */
  lemma DefaultsBlank(g: Field)
    requires Required(g)
    ensures Blank(New().inputs, g)
  {
    assert Trim("") == "" by {
      assert AllWhitespace("");
    }
  }

  /** A fresh form fails validation on exactly the six required fields. */
  lemma DefaultsReported(l: Localization.Locale)
    ensures !ValidateForm(New(), l).ok
    ensures forall g :: g in ValidateForm(New(), l).form.errors <==> Required(g)
  {
    forall g | Required(g) ensures g in ValidateForm(New(), l).form.errors {
      DefaultsBlank(g);
    }
  }

  /** A space before an accepted address: the text is not blank, and the
      pattern rejects it. */
  lemma PaddedAddress(core: string)
    requires Email.IsEmail(core)
    ensures Trim(" " + core) != [] && !Email.IsEmail(" " + core)
  {
    var e := " " + core;
    assert IsWhitespace(e[0]);
    Email.PaddedRejected(e);
    var i :| 0 < i < |core| && core[i] == '@';
    assert e[i + 1] == '@' && !IsWhitespace(e[i + 1]);
    assert !AllWhitespace(e);
  }

  /** An e-mail with a space around an accepted address passes the required
      check and gets the invalid-email error: the two are exclusive. */
  lemma PaddedEmailInvalid(f: Form, l: Localization.Locale, core: string)
    requires Email.IsEmail(core)
    ensures var r := ValidateForm(f.(inputs := f.inputs.(emailAddress := " " + core)), l).form.errors;
      EmailAddress in r && r[EmailAddress] == Some(Localization.Translate(l, InvalidEmailKey, []))
  {
    PaddedAddress(core);
    var h := f.(inputs := f.inputs.(emailAddress := " " + core));
    assert !Blank(h.inputs, EmailAddress);
  }

  // ---------------------------------------------------------------------
  // Payload and submit

  /** The record key each field is stored under. */
  function StoreKey(g: Field): string {
    match g
    case FirstName => "firstName"
    case LastName => "lastName"
    case DateOfEmployment => "dateOfEmployment"
    case DateOfBirth => "dateOfBirth"
    case PhoneNumber => "phoneNumber"
    case EmailAddress => "email"
    case Department => "department"
    case Position => "position"
  }

  /** No two fields share a record key: the keys differ in length or in
      their first character. */
  lemma StoreKeysDistinct(g: Field, h: Field)
    requires g != h
    ensures StoreKey(g) != StoreKey(h)
  {
    assert |StoreKey(g)| != |StoreKey(h)| || StoreKey(g)[0] != StoreKey(h)[0];
  }

  /** No field is stored under `id`: no record key has its length. */
  lemma StoreKeyNotId(g: Field)
    ensures StoreKey(g) != DataStore.IdField
  {
    assert |StoreKey(g)| != |DataStore.IdField|;
  }

  /** The values the store receives: names, phone and e-mail trimmed, the
      dates and selects as they are. */
  function Cleaned(v: Inputs): (r: Inputs)
    ensures forall g | Trimmed(g) :: Value(r, g) == Trim(Value(v, g))
    ensures forall g | !Trimmed(g) :: Value(r, g) == Value(v, g)
  {
    v.(firstName := Trim(v.firstName), lastName := Trim(v.lastName),
       phoneNumber := Trim(v.phoneNumber), emailAddress := Trim(v.emailAddress))
  }

  /** Cleaning cleaned values changes nothing: a trimmed string trims to
      itself. */
  lemma CleanedIsStable(v: Inputs)
    ensures Cleaned(Cleaned(v)) == Cleaned(v)
  {
    TrimOfTrimmed(Trim(v.firstName));
    TrimOfTrimmed(Trim(v.lastName));
    TrimOfTrimmed(Trim(v.phoneNumber));
    TrimOfTrimmed(Trim(v.emailAddress));
  }

  /** The record with each value under its field's key, and nothing else. */
  function RecordOf(v: Inputs): (r: DataStore.Record)
    ensures forall g :: StoreKey(g) in r && r[StoreKey(g)] == Value(v, g)
    ensures forall key | key in r :: exists g :: StoreKey(g) == key
  {
    var r := map[
      StoreKey(FirstName) := v.firstName, StoreKey(LastName) := v.lastName,
      StoreKey(DateOfEmployment) := v.dateOfEmployment, StoreKey(DateOfBirth) := v.dateOfBirth,
      StoreKey(PhoneNumber) := v.phoneNumber, StoreKey(EmailAddress) := v.emailAddress,
      StoreKey(Department) := v.department, StoreKey(Position) := v.position];
    RecordOfFacts(v, r);
    r
  }

  lemma RecordOfFacts(v: Inputs, r: DataStore.Record)
    requires r == map[
      StoreKey(FirstName) := v.firstName, StoreKey(LastName) := v.lastName,
      StoreKey(DateOfEmployment) := v.dateOfEmployment, StoreKey(DateOfBirth) := v.dateOfBirth,
      StoreKey(PhoneNumber) := v.phoneNumber, StoreKey(EmailAddress) := v.emailAddress,
      StoreKey(Department) := v.department, StoreKey(Position) := v.position]
    ensures forall g :: StoreKey(g) in r && r[StoreKey(g)] == Value(v, g)
    ensures forall key | key in r :: exists g :: StoreKey(g) == key
  {
    forall g ensures StoreKey(g) in r && r[StoreKey(g)] == Value(v, g) {
      forall h | h != g ensures StoreKey(h) != StoreKey(g) {
        StoreKeysDistinct(h, g);
      }
    }
  }

  /** A record built from values never carries an `id`, so the store's id
      is kept on update and the generated one is used on add. */
  lemma RecordHasNoId(v: Inputs)
    ensures DataStore.IdField !in RecordOf(v)
  {
    forall g ensures StoreKey(g) != DataStore.IdField {
      StoreKeyNotId(g);
    }
  }

  /** The employee data built on submit. */
  function Payload(f: Form): DataStore.Record {
    RecordOf(Cleaned(f.inputs))
  }

  /** A form that validates hands over non-blank required values, and the
      e-mail exactly as typed, which has the shape. */
  lemma ValidPayload(f: Form, l: Localization.Locale)
    requires ValidateForm(f, l).ok
    ensures forall g | Required(g) :: Payload(f)[StoreKey(g)] != ""
    ensures Payload(f)["email"] == f.inputs.emailAddress && Email.IsEmail(Payload(f)["email"])
  {
    var v := f.inputs;
    var e := v.emailAddress;
    assert StoreKey(EmailAddress) == "email";
    assert EmailAddress !in ValidateForm(f, l).form.errors;
    var i :| 0 < i < |e| && e[i] == '@' && forall m | 0 <= m < |e| && m != i :: Email.Plain(e[m]);
    assert Email.Plain(e[0]) && Email.Plain(e[|e| - 1]);
    TrimOfTrimmed(e);
    forall g | Required(g) ensures Payload(f)[StoreKey(g)] != "" {
      assert g !in ValidateForm(f, l).form.errors;
    }
  }

  /** The text of the update confirmation, with the parameter the form
      passes. */
  function UpdatePrompt(l: Localization.Locale): string {
    Localization.Translate(l, "confirm_update_employee",
      [("fallback", "Are you sure you want to update this employee record?")])
  }

  /** The form, the store, the confirmation asked and the navigation made by
      one submit. */
  datatype Submitted = Submitted(form: Form, store: DataStore.Store, prompt: Option<string>, navigate: Option<string>)

  /** `handleSubmit`: an invalid form touches nothing; in edit mode the user
      is asked, and on a yes the record with the route's id is updated with
      the payload; in any other mode the payload is added. A completed
      submit goes to the list. */
  function HandleSubmit(f: Form, l: Localization.Locale, s: DataStore.Store, confirmed: bool,
                        freshId: string, c: DataStore.Codec): (r: Submitted)
    ensures r.form == ValidateForm(f, l).form
    ensures !ValidateForm(f, l).ok ==> r.store == s && r.prompt == None && r.navigate == None
    ensures ValidateForm(f, l).ok && f.mode.Edit? ==>
      r.prompt == Some(UpdatePrompt(l))
      && (confirmed ==> r.store == DataStore.UpdateEmployee(s, f.mode.id, Payload(f), c).store
                        && r.navigate == Some(ListPath))
      && (!confirmed ==> r.store == s && r.navigate == None)
    ensures ValidateForm(f, l).ok && !f.mode.Edit? ==>
      r.store == DataStore.AddEmployee(s, Payload(f), freshId, c).store
      && r.prompt == None && r.navigate == Some(ListPath)
  {
    var v := ValidateForm(f, l);
    if !v.ok then Submitted(v.form, s, None, None)
    else if f.mode.Edit? then
      if confirmed then
        Submitted(v.form, DataStore.UpdateEmployee(s, f.mode.id, Payload(f), c).store,
                  Some(UpdatePrompt(l)), Some(ListPath))
      else Submitted(v.form, s, Some(UpdatePrompt(l)), None)
    else
      Submitted(v.form, DataStore.AddEmployee(s, Payload(f), freshId, c).store, None, Some(ListPath))
  }

  /** A submit keeps the store's ids unique, given a fresh generated id,
      because the payload never carries an `id`; and the store stays
      mirrored. */
  lemma SubmitKeepsStoreInvariants(f: Form, l: Localization.Locale, s: DataStore.Store, confirmed: bool,
                                   freshId: string, c: DataStore.Codec)
    requires DataStore.UniqueIds(s.employees) && DataStore.FreshId(s.employees, freshId)
    requires DataStore.ValidCodec(c) && DataStore.Mirrors(s, c)
    ensures DataStore.UniqueIds(HandleSubmit(f, l, s, confirmed, freshId, c).store.employees)
    ensures DataStore.Mirrors(HandleSubmit(f, l, s, confirmed, freshId, c).store, c)
  {
    var r := HandleSubmit(f, l, s, confirmed, freshId, c);
    var p := Payload(f);
    RecordHasNoId(Cleaned(f.inputs));
    if ValidateForm(f, l).ok {
      if f.mode.Edit? {
        if confirmed {
          DataStore.UpdateKeepsIds(s, f.mode.id, p, c);
          if DataStore.UpdateEmployee(s, f.mode.id, p, c).record.Some? {
            DataStore.PersistedMirrors(r.store, c);
          }
        }
      } else {
        DataStore.AddKeepsIdsUnique(s, p, freshId, c);
        DataStore.PersistedMirrors(r.store, c);
      }
    }
  }

  // ---------------------------------------------------------------------
  // Attaching to a route

  /** The record's value for a field; a missing one shows as empty. */
  function Stored(rec: DataStore.Record, g: Field): string {
    if StoreKey(g) in rec then rec[StoreKey(g)] else ""
  }

  /** The values read from a stored record. */
  function Filled(rec: DataStore.Record): (r: Inputs)
    ensures forall g :: Value(r, g) == Stored(rec, g)
  {
    Inputs(Stored(rec, FirstName), Stored(rec, LastName), Stored(rec, DateOfEmployment),
           Stored(rec, DateOfBirth), Stored(rec, PhoneNumber), Stored(rec, EmailAddress),
           Stored(rec, Department), Stored(rec, Position))
  }

  /** Reading back any record that holds the values under their keys gives
      the values: `Filled` undoes `RecordOf`, whatever else the record
      holds. */
  lemma FilledRecovers(v: Inputs, rec: DataStore.Record)
    requires forall g :: StoreKey(g) in rec && rec[StoreKey(g)] == Value(v, g)
    ensures Filled(rec) == v
  {
    assert Value(Filled(rec), FirstName) == Value(v, FirstName);
    assert Value(Filled(rec), LastName) == Value(v, LastName);
    assert Value(Filled(rec), DateOfEmployment) == Value(v, DateOfEmployment);
    assert Value(Filled(rec), DateOfBirth) == Value(v, DateOfBirth);
    assert Value(Filled(rec), PhoneNumber) == Value(v, PhoneNumber);
    assert Value(Filled(rec), EmailAddress) == Value(v, EmailAddress);
    assert Value(Filled(rec), Department) == Value(v, Department);
    assert Value(Filled(rec), Position) == Value(v, Position);
  }

  /** `populateFormForEdit(employee)`: the form filled from a stored record,
      each field from its record key, the empty string where the record has
      none; no errors, the mode kept. */
  function Populate(f: Form, rec: DataStore.Record): (r: Form)
    ensures r.inputs == Filled(rec)
    ensures r.errors == map[] && r.mode == f.mode
  {
    Form(Filled(rec), map[], f.mode)
  }

  /** Filling the form from a submitted payload and submitting again hands
      over the same payload. */
  lemma PopulatePayloadRoundTrip(f: Form, g: Form)
    ensures Payload(Populate(g, Payload(f))) == Payload(f)
  {
    var v := Cleaned(f.inputs);
    FilledRecovers(v, RecordOf(v));
    CleanedIsStable(f.inputs);
    assert Populate(g, Payload(f)).inputs == v;
    assert Cleaned(Populate(g, Payload(f)).inputs) == v;
  }

  /** The form and the navigation made when the page is attached. */
  datatype Connected = Connected(form: Form, navigate: Option<string>)

  /** `connectedCallback`: a non-empty route id selects edit mode and fills
      the form from the record with that id, or goes to the list when there
      is none; no id selects add mode with reset fields. */
  function Connect(f: Form, routeId: Option<string>, s: DataStore.Store): (r: Connected)
    ensures routeId.Some? && routeId.value != "" ==> r.form.mode == Edit(routeId.value)
    ensures routeId.Some? && routeId.value != "" && DataStore.FreshId(s.employees, routeId.value) ==>
      r.form == f.(mode := Edit(routeId.value)) && r.navigate == Some(ListPath)
    ensures routeId.Some? && routeId.value != "" && !DataStore.FreshId(s.employees, routeId.value) ==>
      r.form == Populate(f, DataStore.GetEmployeeById(s, routeId.value).value).(mode := Edit(routeId.value))
      && r.navigate == None
    ensures routeId.None? || routeId.value == "" ==>
      r.form == Reset(f).(mode := Add) && r.navigate == None
  {
    if routeId.Some? && routeId.value != "" then
      var g := f.(mode := Edit(routeId.value));
      match DataStore.GetEmployeeById(s, routeId.value)
      case Some(rec) => Connected(Populate(g, rec), None)
      case None => Connected(g, Some(ListPath))
    else
      Connected(Reset(f).(mode := Add), None)
  }

  /** The record the form adds reads back as the submitted values. */
  lemma AddedRecordFills(f: Form, s: DataStore.Store, freshId: string, c: DataStore.Codec)
    ensures Filled(DataStore.AddEmployee(s, Payload(f), freshId, c).record) == Cleaned(f.inputs)
  {
    var v := Cleaned(f.inputs);
    var rec := DataStore.AddEmployee(s, Payload(f), freshId, c).record;
    forall g ensures StoreKey(g) in rec && rec[StoreKey(g)] == Value(v, g) {
      assert StoreKey(g) in RecordOf(v);
    }
    FilledRecovers(v, rec);
  }

  /** Editing a record that was added through the form shows the values
      it submitted, in edit mode for the generated id. */
  lemma EditShowsAdded(f: Form, l: Localization.Locale, s: DataStore.Store, freshId: string,
                       c: DataStore.Codec, g: Form)
    requires DataStore.UniqueIds(s.employees) && DataStore.FreshId(s.employees, freshId)
    requires freshId != ""
    requires ValidateForm(f, l).ok && !f.mode.Edit?
    ensures var s' := HandleSubmit(f, l, s, true, freshId, c).store;
      var r := Connect(g, Some(freshId), s');
      r.form.inputs == Cleaned(f.inputs) && r.form.mode == Edit(freshId) && r.navigate == None
  {
    var added := DataStore.AddEmployee(s, Payload(f), freshId, c);
    assert HandleSubmit(f, l, s, true, freshId, c).store == added.store;
    RecordHasNoId(Cleaned(f.inputs));
    DataStore.AddKeepsIdsUnique(s, Payload(f), freshId, c);
    assert DataStore.GetEmployeeById(added.store, freshId) == Some(added.record);
    AddedRecordFills(f, s, freshId, c);
  }
}
