# User grid: a verified model

`script.js` drives a paginated, editable grid of user records. The grid fetches its pages from
a remote API and lets an operator select rows, edit their cells, and save the edited rows in
one batch. This project models the logic of that script in Dafny and proves what it does:

- **Page-request query encoder** (`query_encoder.dfy`). `ajaxURLGenerator` turns the page
  number, the page size, the sort list and the filter list into `url?<query>`. Its parameter
  object is an ordered property list. The serializer is `URLSearchParams`, modelled as the
  application/x-www-form-urlencoded serializer of the WHATWG URL Standard, section 5.2: UTF-8,
  space as `+`, and `%XX` for every byte other than ASCII letters, digits and `*-._`. That
  serializer lives in `form_urlencoded.dfy` and `utf8.dfy`. Its partner is the section 5.1
  parser: every query parses back to exactly its pairs.
- **JavaScript values** (`js_value.dfy`). These are one datatype with truthiness, `??`,
  ToString and plain objects. Property assignment updates an existing key in place and
  appends a new key. `Merge` is the grid's property-by-property row update.
- **Deep clone** (`deep_clone.dfy`). `deepClone` is a recursive `reduce` that rebuilds arrays
  and objects. The model proves that it returns a value equal to its input.
- **Editors** (`editors.dfy`). The model covers:
  - `handleKeyDown`, where Enter commits and Escape cancels;
  - `getInputType`;
  - the cell date editor, which ends at its first submit or cancel, and the header date
    filter, which submits on every `change` and Enter, both driven by the events their
    inputs receive.
- **Grid bookkeeping** (`grid.dfy`). The class `Grid.Table` holds the rows, the selection in
  selection order, the update button's disabled flag, the confirmation modal and the alerts
  shown. Its methods are:
  - the selection handler;
  - `editCheck`-guarded cell edits with the `cellEdited` handler;
  - `toggleUpdateButton`;
  - the update button;
  - the confirm handler with its two response paths;
  - `handleChange`.

### Behaviour that differs from what one might expect
In each case the model follows the code:
- **Encoding of `sort_by`.** One might expect the sort parameter on the wire as
  `sort_by=name:asc`. `URLSearchParams` percent-encodes the colon, so the query carries
  `sort_by=name%3Aasc` (`FormUrlEncoded.EncodeColon`).
- **Dirty flag after a successful save.** One might expect a successful save to clear a
  record's `isUpdated` flag. The code writes the batch's own data objects back with
  `updateData` (script.js:436), and that changes nothing (`Grid.UpdateRowsOwn`). So
  `isUpdated` stays true on the saved rows (`Grid.EditThenSave`).
- **Unreadable dates.** One might expect an unreadable date in the cell editor to abort the
  edit. The code submits whatever Luxon prints for an invalid date, "Invalid DateTime"
  (script.js:122-125, `Editors.DateEditorValue`).
- **The header date filter stays live.** The cell date editor ends at its first submit or
  cancel. The header date editor's input stays in the column header: every `change` and
  every Enter submits again, and Escape ends nothing (`Editors.HeaderEscapeIgnored`).

## Model

| member | source | states |
|---|---|---|
| QueryEncoder.AjaxUrlGenerator | script.js:318-334 | The URL is the base URL, `?`, then the serialized parameters. The parameters are those the filter loop leaves: the loop invariant ties each iteration to `ApplyFilters`. |
| QueryEncoder.SortByEmittedIff | script.js:319-325 | `sort_by` is sent exactly when the sort list is present and non-empty. |
| QueryEncoder.NullishSortEntry | script.js:320 | A null or undefined sort entry, whose optional-chained field and direction read undefined, is sent as `undefined:undefined`. |
| QueryEncoder.SortByRoundTrip | script.js:319-321 | Splitting the `sort_by` value on `,` gives one entry per sort pair, in order. Cutting each entry at its first `:` gives back the field and the direction. This holds when no field or direction contains a comma and no field contains a colon. |
| QueryEncoder.PerPageDefault | script.js:324 | Without a `per_page` filter, `per_page` is the value given, 0 included. It is `200` when the value given is null or undefined. |
| QueryEncoder.GetApplyFilters | script.js:327-331 | After the filter loop, a key holds the value of the last filter naming it. A key no filter names keeps its earlier value. |
| QueryEncoder.KeysApplyFilters | script.js:327-331 | The keys after the loop are the earlier keys followed by the new filter fields, in order of first assignment, each once. An existing key is overwritten in place. |
| QueryEncoder.FalsyFiltersIgnored | script.js:328 | A filter whose field is falsy (missing, null, empty) changes nothing. |
| QueryEncoder.RequestValues | script.js:322-331 | Each key of the request maps to a value. It is the last filter naming the key if there is one. Otherwise `page` is the page, `per_page` the page size or 200, and `sort_by` the joined sort entries. Otherwise the key is absent. |
| QueryEncoder.GetInitialParams | script.js:322-326 | The object literal before the loop has `page`, `per_page` (with the `??` fallback) and `sort_by` only when it is emitted, and no other key. |
| QueryEncoder.RequestKeys | script.js:322-333 | The serialized pairs start with `page` and then `per_page`. `sort_by` comes third whenever there is a sort. Then come the filter fields in order of first assignment, with no key twice. |
| QueryEncoder.SearchPairsGet | script.js:332 | `URLSearchParams` keeps the keys and their order and converts each value with ToString. |
| QueryEncoder.RequestRoundTrip | script.js:332-333 | The query of any request parses back to exactly its key/value pairs, in order. |
| FormUrlEncoded.ParseSerialize | script.js:332-333 | Parsing a serialized pair list gives that list back, for any keys and values. |
| FormUrlEncoded.EncodeColon | script.js:320-332 | The colon in a sort entry is sent as `%3A`. |
| FormUrlEncoded.EncodePlain | script.js:332 | Text made only of ASCII letters, digits and `*-._` is sent unchanged. |
| FormUrlEncoded.EncodeBytes | script.js:332 | Encoded bytes are ASCII and contain neither `&` nor `=`, so they cannot break the pair structure. |
| FormUrlEncoded.DecodeEncodeBytes | script.js:332 | Turning `+` back into a space and decoding `%XX` restores any encoded byte string. |
| Utf8.DecodeEncode | script.js:332 | UTF-8 decoding undoes the encoding `URLSearchParams` applies before percent-encoding. |
| JsValue.GetAssign | script.js:329 | After `o[k] = v`, reading `k` gives `v` and every other key reads as before. |
| JsValue.Assign | script.js:329 | Assigning an existing key keeps the key order. A new key goes last. |
| JsValue.MergeOntoPrefix | script.js:456 | Writing back an object whose keys extend the row's keys in the row's order gives that object. Merging a row into itself changes nothing. |
| Clone.DeepClone | script.js:346-355 | The clone equals its input: primitives and null come back as they are, and arrays and objects are rebuilt key by key with cloned properties. |
| Clone.CloneProps | script.js:350-354 | The `reduce` over an object's keys, started from `{}`, rebuilds exactly the object's properties in order. |
| Clone.CloneElems | script.js:350-354 | The `reduce` over an array's indices, started from `[]`, rebuilds exactly the array. |
| Editors.HandleKeyDown | script.js:30-38 | A key press runs at most one callback: commit exactly for Enter, cancel exactly for Escape. |
| Editors.GetInputType | script.js:398-406 | The input type is `email` exactly for the email key, `date` exactly for the date-of-birth key, and `text` otherwise. |
| Editors.RunEditorFirst | script.js:132-135 | A cell date edit ends as the first committing or cancelling event says, whatever follows. With no such event it stays open. |
| Editors.EscapeCancels | script.js:35-37 | Escape before anything else cancels the edit: nothing is submitted, whatever the input holds. |
| Editors.EnterCommits | script.js:132-135 | Enter and `change` both submit the current input of the cell date editor through its `onChange`. |
| Editors.HeaderDateRaw | script.js:68-76 | Every value the header date filter submits is the raw text of a `change` or Enter event, and it submits something exactly when such an event occurs. |
| Editors.HeaderFilterLater | script.js:73-76 | Each later `change` or Enter adds its own text after the values already submitted; any other key adds nothing. So the filter in force is the text of the last such event. |
| Editors.HeaderEscapeIgnored | script.js:76 | Escape in the header date filter neither ends it nor undoes anything: the events after it submit as usual. |
| Editors.DateEditorValue | script.js:121-129 | An input equal to the text the editor opened with submits the cell's original value. Any other input submits the reformatted date, or the invalid-date text when it cannot be read. |
| Editors.DateEditorOutcomes | script.js:121-135 | Enter on an unchanged date puts back the cell's own value. A changed, unreadable date is submitted as "Invalid DateTime" rather than refused. |
| Grid.UpdateDisabledIff | script.js:388-391 | The button's disabled expression is true exactly when no selected record has a truthy `isUpdated`, in particular when nothing is selected. |
| Grid.UpdatedPositionsData | script.js:429 | The rows picked for the batch are exactly the selected records with a truthy `isUpdated`, in selection order. |
| Grid.UpdatedPositionsMembers | script.js:429 | A position is in the batch exactly when it is selected and its row is marked updated. |
| Grid.FailureMessageCases | script.js:443 | A failed save shows the server's `error` text when the reply carries one. A resolved response or a reply without a body shows "Something went wrong". |
| Grid.ServerErrorReported | script.js:433-443 | A 500 with body `{error: "db locked"}` is not a success and is reported as "db locked". |
| Grid.FindRow | script.js:436 | The row lookup by id finds a row with that id. Otherwise the id is not a number or string, or no row has it. |
| Grid.FindOwnRow | script.js:436 | With distinct ids, a row's own id finds that row. |
| Grid.MarkUpdated | script.js:455-456 | Writing `{...row, isUpdated: true}` back by id sets the mark on that row in place and leaves the other rows alone. |
| Grid.UpdateOwnRow | script.js:436 | Writing a row's own data back changes nothing. |
| Grid.UpdateRowsOwn | script.js:436 | Writing back the batch's own records leaves every row as it was, so the saved rows stay marked updated. |
| Grid.AssignKeepsRows | script.js:454-456 | Setting an editable field keeps the rows valid with their ids and leaves the row's mark alone. Setting the mark makes the row updated. |
| Grid.ChangedRecord | script.js:366-367 | After `o[key] = value` and `o.isUpdated = true`, the record is marked, holds `value` at `key`, and is otherwise unchanged. |
| Grid.DeselectSelected | script.js:437 | Deselecting the ids of the selected data empties the selection. |
| Seqs.RemoveInPlace | script.js:149-151 | Taking a selected row out of the selection removes it where it stands; the other rows keep their order. |
| Grid.ToggledSelection | script.js:149-151 | Toggling a row removes it from a selection that holds it, in place with the others in order, and adds it last to one that does not. The selection stays valid. |
| Grid.Table.constructor | script.js:409-413 | A fresh grid has nothing selected and the update button disabled. |
| Grid.Table.ToggleUpdateButton | script.js:388-391 | Afterwards the button is disabled exactly when no selected row is marked updated. Nothing else changes. |
| Grid.Table.SelectionChanged | script.js:449-451 | Any selection change re-evaluates the button for the new selection. |
| Grid.Table.ToggleSelect | script.js:149-151 | A click on the selection cell toggles that row: the new selection is the toggled one, in order, and the button is re-evaluated. |
| Grid.Table.EditCell | script.js:86-91 | A new value reaches a row only through an editable column of a selected row, and only when it differs from the cell's value. Then the row holds the value and the mark, and the button is enabled. Otherwise nothing changes. |
| Grid.Table.OnCellEdited | script.js:454-457 | The handler sets `isUpdated` on the edited row, leaves the other rows alone, and enables the button when that row is selected. |
| Grid.Table.ClickUpdate | script.js:422-424 | The update button opens the confirmation modal only when it is enabled. |
| Grid.UpdatedPositionsNonEmpty | script.js:427-429 | When the update button is enabled, the batch of selected rows marked updated is not empty. |
| Grid.Table.ConfirmSave | script.js:427-432 | Confirming needs the open modal, and closes it. The payload is `{updates: …}` of the selected records marked updated, in selection order. The batch positions are exactly those rows. With the button enabled the batch is not empty. |
| Grid.Table.OnUpdateResponse | script.js:433-444 | On status 200: the success alert shows, the rows are unchanged (they stay marked), nothing is selected, the button is disabled, and the filters are refreshed once exactly when header filters are in use. Otherwise only the failure message is added. |
| Grid.Table.HandleChange | script.js:364-368 | The table is not written. An index with no record throws. Otherwise the clone equals the selected data except record `index`, which holds `value` at `key`, has `isUpdated` true, and is otherwise unchanged. |
| Grid.SelectAndEdit | script.js:454-457 | Selecting a row on a fresh page and changing its email leaves that row selected, holding the new email and the mark, with its id unchanged. |
| Grid.EditThenSave | script.js:427-446 | Selecting a row, editing its email, confirming and getting status 200 posts that one record with the new email and the mark. Afterwards nothing is selected, the button is disabled, and the row read after the save is still that marked record. |

## Left out
- I/O and the browser:
  - DOM construction, styling, focus handling and the loader markup;
  - the column and option tables, apart from which columns are editable;
  - `reset` (a page reload);
  - the bootstrap modal's own dismissal;
  - `alert` dialogs, which are recorded as a list of messages.
- The axios POST in `updateRecord` (script.js:375-382) is network I/O. Its outcome is the
  parameter `Grid.Response`: a resolved status, or a rejection with an optional status and
  response body. What reaches the server is returned as the payload value.
- The await is not modelled as concurrency. `Grid.Table.OnUpdateResponse` is the continuation
  and may run after any other operation. It re-reads the selection at that time, as the code
  does.
- Luxon:
  - The conversion of the cell value into the editor's `yyyy-MM-dd` text is the parameter
    `shown`.
  - Reformatting the input is the parameter `reformat`.
  - The `dd/MM/yyyy` display formatter (script.js:243) is not modelled.
- Grid internals:
  - Row lookup compares ids with Dafny equality, not JavaScript `==`. Row ids are numbers or
    strings; a row with a null or object id is not modelled.
  - The `cancel` the grid hands a header filter is taken to do nothing, and the header
    filter's input is taken to stay in place after a submit.
  - Page loading and remote sort and filter are not modelled; the rows are given to the
    constructor.
  - Validators are not modelled: in `validationMode: "highlight"` they do not block an edit.
  - The header filters themselves are not modelled; the save handler takes their count as a
    parameter.
  - The header "select all" checkbox is covered only as a general `SelectionChanged`.
- The `divTen` validator (script.js:460-467) is not attached to any column. Its expression
  `!value % 10` accepts exactly the falsy values, whatever the comment says. It is not
  modelled.
- Grid.Table.HandleChange: `handleChange` is never called in the script. It is modelled as a
  method that returns the clone the source throws away.
- Clone.DeepClone: values only. That the clone shares no object with its input (aliasing) is
  not expressed.
- Numbers are integers. Fractions, `NaN`, infinities and exponent notation (1e21 and above) in
  ToString are not modelled.
- JavaScript objects list integer-like keys first in ascending order, and `__proto__` is
  special. Neither is modelled: keys keep their insertion order.
- Strings are sequences of Unicode scalar values, not UTF-16 code units. A lone surrogate,
  which `URLSearchParams` replaces with U+FFFD, cannot occur in the model.
- A `filter` entry that is itself `undefined`, a `params` that is not an object, and a
  non-integer `index` for `handleChange` are not modelled.
- Utf8.Decode: malformed UTF-8 yields `None` rather than U+FFFD replacement characters. The
  parser only ever meets well-formed input from the serializer.
