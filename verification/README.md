# Employee management UI — a Dafny model of its core

This project models the logic of a small employee-management web
application:

- the **data store**: an in-memory employee list mirrored as JSON into one
  `localStorage` slot, with load, get, add, update, delete and a test-only
  reset;
- the **localization resolver**: key lookup in the current language's table
  (English or Turkish) with fall-back to the key, `{{param}}` substitution,
  and the language selector;
- the two string **tables**;
- the non-rendering logic of the two pages. The **employee form** covers
  defaults, reset, field edits, validation, the submitted payload, the
  add-or-update submit and the mode chosen from the route. The **employee
  list** covers loading, the table/list toggle, edit navigation, the delete
  flow and the display labels.

Module-level state in the source (the employee list, the current language)
becomes an explicit value: a `Store` and a `Locale`. Each operation takes
the state and returns the new one. Side effects that matter to callers are
part of the result:

- storage writes are recorded in `Backing.log`;
- the confirmation text asked and the alert shown are fields of the result;
- the path navigated to is an `Option<string>`.

Files, one module each:

- `common.dfy`: `Option`.
- `strings.dfy`: JavaScript `trim`, the `\s` class, literal global
  replace-all and ASCII lower-casing.
- `en_table.dfy`, `tr_table.dfy`: the two tables.
- `localization.dfy`: the resolver.
- `data_store.dfy`: the store.
- `email.dfy`: the e-mail pattern.
- `employee_form.dfy`, `employee_list.dfy`: the two pages.

## Model

| member | source | states |
|---|---|---|
| Strings.Trim | src/pages/employee-form-page.js:187-193 | `trim()` returns "" exactly when the text is all whitespace; otherwise the result neither starts nor ends with whitespace; it is never longer than the text; TrimIsSlice adds that it is the slice between the leading and trailing whitespace |
| Strings.TrimIsSlice | src/pages/employee-form-page.js:187-193 | `trim()` keeps the slice of the text between a leading and a trailing run of whitespace; with the ends `Trim` promises, that fixes the result |
| Strings.TrimOfTrimmed | src/pages/employee-form-page.js:213-218 | a text with no whitespace at either end trims to itself |
| Strings.TrimStartFacts | src/pages/employee-form-page.js:187 | the leading half of `trim` keeps the suffix starting at the first non-whitespace character, and everything it drops is whitespace |
| Strings.TrimEndFacts | src/pages/employee-form-page.js:187 | the trailing half keeps the prefix ending at the last non-whitespace character, and everything it drops is whitespace |
| Strings.TrimParts | src/pages/employee-form-page.js:187 | the two halves combine into the `trim` contract |
| Strings.CountZeroIffAbsent | src/localization/index.js:23 | the global replacement scan finds nothing exactly when the pattern occurs nowhere in the text |
| Strings.CountZeroAbsent | src/localization/index.js:23 | a scan that finds nothing means the pattern occurs at no position |
| Strings.CountPositiveMatch | src/localization/index.js:23 | a scan that finds something yields a position where the pattern occurs |
| Strings.ReplaceAllLength | src/localization/index.js:23 | after replace-all, the length changes by the replacement's length difference once per occurrence found |
| Strings.ReplaceAllAbsent | src/localization/index.js:23 | a text without the pattern is left unchanged by replace-all |
| Strings.CountWithoutFirstChar | src/localization/index.js:23 | a text lacking the pattern's first character has no occurrence |
| Strings.ReplaceAll | src/localization/index.js:23 | computes the global literal replacement; what it promises is stated by ReplaceAllLength, ReplaceAllAbsent, ReplaceAllFirst, ReplaceAllEvery and ReplaceAllKeeps |
| Strings.ReplaceAllFirst | src/localization/index.js:23 | the first occurrence, behind a prefix that cannot start one, is replaced and the scan goes on with the rest of the text |
| Strings.ReplaceAllEvery | src/localization/index.js:23 | the `g` flag: in a text of literal parts separated by the pattern, every separator is found and every one is rewritten |
| Strings.ReplaceAllKeepsPrefix | src/localization/index.js:23 | a leading stretch in which no occurrence starts is passed over unchanged |
| Strings.ReplaceAllKeeps | src/localization/index.js:23 | a piece of the text that no occurrence of the pattern overlaps is still in the result, between the rewritten parts around it |
| Strings.ReplaceAllSingle | src/localization/index.js:23 | a pattern placed once between texts without its first character is found once, and only that occurrence is rewritten |
| Strings.PlacedOnceIntro | src/localization/en.js:50-51 | a template built as text, placeholder, text, with no `{` outside the placeholder, holds the placeholder once |
| Strings.PlacedOnceAtStart | src/localization/tr.js:50-51 | a template that opens with its placeholder and holds no other `{` holds the placeholder once |
| Strings.PlacedOnceReplace | src/localization/index.js:23 | replacing a placeholder held once splices the replacement in at that spot and nowhere else |
| Strings.AsciiLower | src/pages/employee-list-page.js:191-192 | lower-casing keeps the length; each capital of the alphabet table becomes the small letter at the same place of the second table, and every character outside the capitals is kept |
| Strings.AsciiLowerLeavesNoCapital | src/pages/employee-list-page.js:191-192 | no capital survives lower-casing |
| Strings.AsciiLowerIdempotent | src/pages/employee-list-page.js:191-192 | lower-casing a lower-cased text changes nothing |
| EnglishTable.En | src/localization/en.js:1-56 | the English table as a key-to-text map; its entries are stated by the EnglishTable lemmas below |
| EnglishTable.AppTitle | src/localization/en.js:2 | the English title entry |
| EnglishTable.SaveChangesLabel | src/localization/en.js:34-47 | the key declared twice resolves to its one value |
| EnglishTable.DisplayKeys | src/localization/en.js:17-22 | the labels of both departments and all three positions |
| EnglishTable.NoSearchKeys | src/localization/en.js:1-56 | the English table has no search keys |
| EnglishTable.ConfirmDeletePlaceholder | src/localization/en.js:50 | the delete confirmation entry holds `{{name}}` exactly once |
| EnglishTable.ErrorDeleteEntry | src/localization/en.js:51 | the delete failure entry |
| EnglishTable.ErrorDeletePlaceholder | src/localization/en.js:51 | the delete failure message holds `{{name}}` exactly once |
| TurkishTable.Tr | src/localization/tr.js:1-60 | the Turkish table as a key-to-text map; its entries are stated by the TurkishTable lemmas below |
| TurkishTable.AppTitle | src/localization/tr.js:2 | the Turkish title entry |
| TurkishTable.NavigationLabels | src/localization/tr.js:3-4 | the two navigation entries |
| TurkishTable.SaveChangesLabel | src/localization/tr.js:34-47 | the key declared twice resolves to its one value |
| TurkishTable.DisplayKeys | src/localization/tr.js:17-22 | the labels of both departments and all three positions |
| TurkishTable.ConfirmDeletePlaceholder | src/localization/tr.js:50 | the delete confirmation holds `{{name}}` exactly once, at its start |
| TurkishTable.ErrorDeleteEntry | src/localization/tr.js:51 | the delete failure entry |
| TurkishTable.ErrorDeletePlaceholder | src/localization/tr.js:51 | the delete failure message holds `{{name}}` exactly once |
| TurkishTable.SearchTermPlaceholder | src/localization/tr.js:60 | the no-match search message holds `{{term}}` exactly once |
| Localization.Init | src/localization/index.js:7-11 | the initial language is the document's when it has a table; otherwise, and when the attribute is empty, it is `en`; the selector always names a table |
| Localization.SetLanguage | src/localization/index.js:35-43 | a language with a table becomes current and is written to the document; any other request changes nothing; a valid selector stays valid |
| Localization.SelectorStaysValid | src/localization/index.js:35-43 | after any sequence of `setLanguage` requests, the selector still names a table |
| Localization.Lookup | src/localization/index.js:20 | the current table's entry, or the key when the entry is missing or empty; stated by LookupOf (a non-empty entry is returned) and TranslateMissing (otherwise the key) |
| Localization.Substitute | src/localization/index.js:21-25 | the parameter loop; stated by SubstituteWithoutPlaceholders, UnknownPlaceholderKept, EveryOccurrenceReplaced and SubstituteNameAndFallback |
| Localization.Translate | src/localization/index.js:19-27 | `t(key, params)`; stated by TranslateEntry, TranslateMissing, TranslateMissingWithParams and TranslateMissingBraceless |
| Localization.TranslateEntry | src/localization/index.js:19-20 | a present non-empty entry is returned as it is |
| Localization.TranslateMissing | src/localization/index.js:19-20 | a key with no non-empty entry comes back as the key |
| Localization.TranslateMissingWithParams | src/localization/index.js:19-27 | a missing key with none of the parameters' placeholders comes back unchanged |
| Localization.TranslateMissingBraceless | src/localization/index.js:19-27 | a missing key without `{` comes back unchanged, whatever the parameters |
| Localization.SubstituteWithoutPlaceholders | src/localization/index.js:21-25 | parameters whose placeholders do not occur leave the text unchanged |
| Localization.SubstituteNameAndFallback | src/localization/index.js:21-25 | with `name` then `fallback` on a template holding `{{name}}` once, the name is spliced in and the fallback is never used |
| Localization.SameSpotDiffers | src/localization/index.js:23 | placeholders of two different `}`-free names never match at the same position |
| Localization.OtherPlaceholderAbsent | src/localization/index.js:23 | in a text whose only `{` run is one written placeholder, the placeholder of any other name occurs nowhere |
| Localization.PlaceholdersDoNotOverlap | src/localization/index.js:23 | with brace-free names, an occurrence of one placeholder never overlaps an occurrence of another, anywhere in a text |
| Localization.UnknownPlaceholderKept | src/localization/index.js:21-25 | a placeholder whose name is not among the parameters is still in the result, whatever the rest of the text and the parameters' values |
| Localization.LonePlaceholderTextUnchanged | src/localization/index.js:21-25 | a text whose one `{` run is an unknown placeholder comes back unchanged |
| Localization.EveryOccurrenceReplaced | src/localization/index.js:23 | every occurrence of a parameter's placeholder in a template is replaced by its value |
| Localization.LookupOf | src/localization/index.js:20 | under a supported language, a non-empty table entry is what the lookup returns |
| Localization.TurkishCoversEnglish | src/localization/tr.js:1-60 | every English key is also a Turkish key |
| Localization.AppTitle | src/localization/index.js:7-27 | the title in English, in Turkish after switching, and in English for a document language without a table |
| Localization.EnglishSearchKeysVerbatim | src/localization/index.js:19-27 | under English the three search keys come back as the keys, with any parameters |
| Localization.EnglishConfirmDelete | src/pages/employee-list-page.js:141-144 | the English delete confirmation with the page's parameters reads "Are you sure you want to delete NAME?" |
| Localization.TemplateWithName | src/localization/index.js:20 | in either language, both delete templates hold `{{name}}` exactly once |
| Localization.DeleteMessagesCarryName | src/pages/employee-list-page.js:141-157 | in either language, both delete messages are the name between two texts that hold no placeholder |
| Localization.InitAsWritten | src/localization/index.js:7-11 | initialisation with the source's truthiness test: any truthy property name is accepted |
| Localization.SetLanguageAsWritten | src/localization/index.js:35-43 | `setLanguage` with the source's truthiness test, which inherited object members also pass |
| Localization.AsWrittenAgreesOffPrototype | src/localization/index.js:8-36 | off the inherited member names, the source's test and the own-table test agree |
| Localization.PrototypeLanguageAccepted | src/localization/index.js:36-38 | `setLanguage("toString")` is accepted; the selector then names no table and the title comes back untranslated |
| DataStore.PersistedMirrors | src/services/data-store.js:46-69 | a list written as its serialisation parses back from storage |
| DataStore.Load | src/services/data-store.js:11-23 | non-empty stored text that parses is returned with no write; unparsable text is removed and the seed written; a missing or empty slot gets the seed written; in both seed cases the slot then holds the serialised seed; other slots are kept |
| DataStore.LoadMirrors | src/services/data-store.js:11-25 | whatever storage held, after loading it parses to the loaded list |
| DataStore.ReloadIsStable | src/services/data-store.js:11-23 | loading again from what a load left behind yields the same store, with no further storage call |
| DataStore.ReloadRestores | src/services/data-store.js:11-23 | a persisted list survives a reload unchanged |
| DataStore.ResetStore | src/services/data-store.js:27-30 | reset clears storage, then yields and writes the seed as the only slot |
| DataStore.FindIndex | src/services/data-store.js:37 | the first position carrying the id, or none exactly when no record carries it |
| DataStore.GetEmployees | src/services/data-store.js:32-34 | a copy of the list; LoadEmployeeData states that the page shows exactly the store's records |
| DataStore.GetEmployeeById | src/services/data-store.js:36-38 | none exactly when no record carries the id; otherwise the first record that does |
| DataStore.GetEmployeeByIdUnique | src/services/data-store.js:36-38 | with unique ids, the record at any position carrying the id is the one found |
| DataStore.AddEmployee | src/services/data-store.js:40-48 | the new record is appended; it has the caller's fields plus `id`, the generated id unless the caller gave one; the list is written |
| DataStore.AddKeepsIdsUnique | src/services/data-store.js:40-48 | a fresh id and data without `id` keep ids unique, and the new record is found by its id |
| DataStore.AddWithCallerIdDuplicates | src/services/data-store.js:41-44 | a caller-supplied `id` overrides the generated one and can duplicate an existing id |
| DataStore.MergeMatching | src/services/data-store.js:52-58 | records carrying the id get the update's fields over theirs; others are unchanged; the length is kept |
| DataStore.FindLastIndex | src/services/data-store.js:52-58 | the last position carrying the id (the record `updatedEmployee` ends as) |
| DataStore.UpdateEmployee | src/services/data-store.js:50-63 | every match is merged; the last merged record is returned; nothing is written when no record matched |
| DataStore.UpdateKeepsIds | src/services/data-store.js:50-63 | an update without `id` keeps every record's id, keeps ids unique, and the returned record is found by its id |
| DataStore.UpdateWithIdDuplicates | src/services/data-store.js:54 | an update carrying `id` can duplicate an existing id |
| DataStore.Without | src/services/data-store.js:67 | the filter drops exactly the records carrying the id and keeps the rest |
| DataStore.WithoutAppend | src/services/data-store.js:67 | filtering distributes over concatenation |
| DataStore.WithoutFresh | src/services/data-store.js:67 | filtering an absent id changes nothing |
| DataStore.DeleteEmployee | src/services/data-store.js:65-73 | true exactly when some record carried the id; none carries it afterwards; storage is written only on true |
| DataStore.DeleteThenGet | src/services/data-store.js:36-73 | after a delete the id is not found, and a second delete returns false and changes nothing |
| DataStore.DeleteRemovesOne | src/services/data-store.js:65-73 | with unique ids, a delete removes exactly the one record and keeps the others in order |
| DataStore.StoreStaysMirrored | src/services/data-store.js:25-73 | through any sequence of add, update, delete and reset, storage parses to the in-memory list |
| Email.IsEmailMatchesPattern | src/pages/employee-form-page.js:196 | the field-wise reading accepts exactly what the anchored pattern matches |
| Email.SplitAtPlain | src/pages/employee-form-page.js:196 | in a match, every character other than the `@` is neither whitespace nor `@` |
| Email.PaddedRejected | src/pages/employee-form-page.js:196-197 | any whitespace in the value makes the pattern fail |
| Email.MatchesEmail | src/pages/employee-form-page.js:196-197 | the one-pass scan answers true exactly when the value has the e-mail shape |
| EmployeeForm.New | src/pages/employee-form-page.js:100-112 | the constructor gives empty text fields, the first department and position, and no errors |
| EmployeeForm.Reset | src/pages/employee-form-page.js:114-125 | reset restores every default and clears the errors, keeping the mode |
| EmployeeForm.ResetIsNew | src/pages/employee-form-page.js:100-125 | a reset form is a fresh one in the same mode, and reset is idempotent |
| EmployeeForm.WithValue | src/pages/employee-form-page.js:179 | writing a field sets that field and leaves the others |
| EmployeeForm.WithSameValue | src/pages/employee-form-page.js:179 | writing a field the value it has changes nothing |
| EmployeeForm.HandleInputChange | src/pages/employee-form-page.js:177-183 | the field takes the value; a shown error on that field becomes null; other errors and the mode are kept |
| EmployeeForm.EditClearsOnlyItsError | src/pages/employee-form-page.js:180-182 | after an edit the field shows no error, and every other field shows what it showed before |
| EmployeeForm.ValidateForm | src/pages/employee-form-page.js:185-204 | a required error on exactly the blank required fields (names, phone and e-mail trimmed, dates not); the invalid-email error for a non-blank e-mail without the shape; ok exactly when no error |
| EmployeeForm.ValidateIsStable | src/pages/employee-form-page.js:185-204 | validating twice is validating once, and an edit with the same value keeps the verdict |
| EmployeeForm.DefaultsBlank | src/pages/employee-form-page.js:103-108 | every required field of a fresh form is blank |
| EmployeeForm.DefaultsReported | src/pages/employee-form-page.js:185-204 | a fresh form fails validation with an error on exactly the six required fields |
| EmployeeForm.PaddedAddress | src/pages/employee-form-page.js:193-197 | an address with a leading space is not blank, yet the pattern rejects it |
| EmployeeForm.PaddedEmailInvalid | src/pages/employee-form-page.js:193-199 | a space-padded valid address gets the invalid-email error, not the required one |
| EmployeeForm.StoreKeysDistinct | src/pages/employee-form-page.js:212-221 | no two fields share a record key |
| EmployeeForm.StoreKeyNotId | src/pages/employee-form-page.js:212-221 | no field is stored under `id` |
| EmployeeForm.Cleaned | src/pages/employee-form-page.js:212-221 | names, phone and e-mail are handed over trimmed; dates and selects as they are |
| EmployeeForm.CleanedIsStable | src/pages/employee-form-page.js:212-221 | cleaning cleaned values changes nothing |
| EmployeeForm.RecordOf | src/pages/employee-form-page.js:212-221 | the payload holds each value under its field's key, and only those keys |
| EmployeeForm.RecordOfFacts | src/pages/employee-form-page.js:212-221 | the eight-entry record reads back each value under its key |
| EmployeeForm.Payload | src/pages/employee-form-page.js:212-221 | the object built on submit; stated by RecordOf, RecordHasNoId, ValidPayload and PopulatePayloadRoundTrip |
| EmployeeForm.RecordHasNoId | src/pages/employee-form-page.js:212-221 | the payload never carries `id` |
| EmployeeForm.ValidPayload | src/pages/employee-form-page.js:185-221 | after a successful validation every required value handed over is non-empty, and the e-mail is handed over exactly as typed, with the shape |
| EmployeeForm.HandleSubmit | src/pages/employee-form-page.js:206-235 | an invalid form touches nothing; in edit mode it asks, and on a yes updates the route's id and goes to the list; otherwise it adds and goes to the list |
| EmployeeForm.SubmitKeepsStoreInvariants | src/pages/employee-form-page.js:206-235 | given a fresh generated id, a submit keeps the store's ids unique and its storage mirrored |
| EmployeeForm.Filled | src/pages/employee-form-page.js:127-135 | each field reads its record key, or "" when the record has none |
| EmployeeForm.FilledRecovers | src/pages/employee-form-page.js:127-135 | reading back any record that holds the values under their keys gives the values, whatever else it holds |
| EmployeeForm.Populate | src/pages/employee-form-page.js:127-137 | populate fills the values from the record, clears the errors and keeps the mode |
| EmployeeForm.PopulatePayloadRoundTrip | src/pages/employee-form-page.js:127-221 | filling the form from a payload and submitting hands over the same payload |
| EmployeeForm.Connect | src/pages/employee-form-page.js:155-172 | a route id selects edit mode and fills the form from the record with that id, or goes to the list when there is none; no id selects add mode with reset fields |
| EmployeeForm.AddedRecordFills | src/pages/employee-form-page.js:127-231 | the record the form adds reads back as the submitted values |
| EmployeeForm.EditShowsAdded | src/pages/employee-form-page.js:155-235 | after adding, opening the edit route of the generated id shows the submitted values in edit mode, with no navigation |
| EmployeeList.New | src/pages/employee-list-page.js:108-112 | the constructor gives an empty list in table view |
| EmployeeList.LoadEmployeeData | src/pages/employee-list-page.js:114-124 | loading shows the store's list and keeps the view |
| EmployeeList.SetViewMode | src/pages/employee-list-page.js:164-168 | only `table` and `list` are taken; anything else changes nothing; a valid view stays valid |
| EmployeeList.ViewStaysValid | src/pages/employee-list-page.js:164-168 | after any sequence of toggle requests the view is `table` or `list`, and the list is kept |
| EmployeeList.ChooseBody | src/pages/employee-list-page.js:255-260 | the empty message shows exactly when there are no employees |
| EmployeeList.BodyFollowsToggle | src/pages/employee-list-page.js:243-260 | with employees, the cards show exactly in list view, and each toggle button selects its view |
| EmployeeList.HandleEdit | src/pages/employee-list-page.js:126-132 | navigation to `/employees/edit/ID` exactly when there is an employee with a non-empty id |
| EmployeeList.EditRouteCarriesId | src/pages/employee-list-page.js:128 | the part of the edit route after its prefix is the employee's id |
| EmployeeList.HandleDelete | src/pages/employee-list-page.js:134-162 | nothing without a usable id; otherwise asks, and on a yes deletes by id; reloads the list when something was removed; otherwise alerts and changes nothing |
| EmployeeList.DeleteKeepsSynced | src/pages/employee-list-page.js:146-151 | a page showing the store's list still does after any delete |
| EmployeeList.DeleteShownRemovesRow | src/pages/employee-list-page.js:146-151 | with unique ids, confirming the delete of a shown row removes exactly that row, keeps the others in order, and shows no alert |
| EmployeeList.StaleDeleteAlerts | src/pages/employee-list-page.js:147-158 | deleting an employee the store no longer has changes nothing and shows the failure alert |
| EmployeeList.DeletePrompt | src/pages/employee-list-page.js:140-144 | the confirmation text; DeleteMessagesNameEmployee states that it is the full name between two fixed texts |
| EmployeeList.DeleteAlert | src/pages/employee-list-page.js:154-157 | the failure alert text; DeleteMessagesNameEmployee states the same for it |
| EmployeeList.DeleteMessagesNameEmployee | src/pages/employee-list-page.js:140-157 | in either language, the confirmation and the alert are the full name between two fixed texts |
| EmployeeList.HasLabel | src/localization/index.js:20 | a key with non-empty entries in both tables has one in the current language |
| EmployeeList.Label | src/pages/employee-list-page.js:191-192 | the shown department or position text; stated by OfferedValuesHaveLabels and UnlabelledValueShowsKey |
| EmployeeList.OfferedValuesHaveLabels | src/pages/employee-list-page.js:191-192 | every department and position the form offers has a label in both languages |
| EmployeeList.UnlabelledValueShowsKey | src/pages/employee-list-page.js:191-192 | a value with no label shows its lookup key, not the value passed as `fallback` |

## Left out

- Console output, `alert` and `confirm` dialogs, and router navigation are not executed. The answer to `confirm` is a parameter, and the alert text and the path navigated to are results.
- JSON is a pair of functions (`Codec`) assumed to round-trip. `JSON.parse` returning a non-array (`null`, a number) is not modelled; the stored text either parses to a list or fails.
- `generateId` (random and clock based) is a parameter `freshId`. Its freshness is a precondition of the id-uniqueness lemmas only.
- The seed data module (`src/data/employees.js`) is not part of this model; the seed list is a parameter.
- `localStorage` is a map plus a call log. The storage failures (quota, disabled storage) are not modelled.
- Aliasing of the returned arrays and objects is not modelled. `getEmployees` returns the list as a value.
- EmployeeForm.Filled: reads a field the record lacks as "", where the source gets `undefined` and the next `validateForm` would throw on `.trim()`; records map string keys to string values, so `undefined` and non-string field values are outside the form model.
- `handleInputChange` on an input name that is not one of the eight fields is not modelled.
- `for...in` visits integer-like parameter names first. Parameters are kept in written order, which matches every call site (all names are non-numeric).
- Replacement is literal: regular-expression metacharacters in a parameter name and `$` patterns in a replacement value are not modelled.
- Strings.AsciiLower: lower-cases the ASCII letters only, where `toLowerCase` also maps non-ASCII letters (such as `İ` or `Ç`); every department and position value the form offers is ASCII.
- Lookups in `t` see only the tables' own keys. A key such as `toString` would find an inherited function; the same cause is the subject of the finding below for `setLanguage`.
- Rendering, styles, the manual select-element syncing in `populateFormForEdit`, `handleCancel` (it only navigates to `/employees`) and the asynchronous `updateComplete` wait are not modelled.
- The two test expectations that disagree with the code are not encoded: `src/services/data-store.test.js:197-199` expects an English entry `no_employees_found_search`, which the English table lacks (`Localization.EnglishSearchKeysVerbatim` states what the code does), and `src/services/data-store.test.js:202-206` expects a warning text that `setLanguage` does not print.

## Findings

| source | as written | input that shows it | evidently intended | confidence | as-written member | corrected member |
|---|---|---|---|---|---|---|
| src/localization/index.js:36 | `translations[lang]` is checked for truthiness, and a plain object also yields its inherited `Object.prototype` members | `setLanguage("toString")`, or a document `lang` of `toString` | only the two tables' own languages are accepted | not executed | Localization.SetLanguageAsWritten, Localization.PrototypeLanguageAccepted | Localization.SetLanguage, Localization.SelectorStaysValid |
