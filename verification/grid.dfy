/** The grid's edit bookkeeping: which rows are selected, which cells may be edited, the
    `isUpdated` mark a cell edit leaves on its row, the update button that is enabled while a
    selected row carries that mark, and the confirm-and-save round trip to the server. */
module Grid {
  import opened Wrappers
  import opened Seqs
  import opened JsValue
  import Clone
  import Editors

  const SUCCESS_MESSAGE := "Records updated successfully"
  const FALLBACK_MESSAGE := "Something went wrong"

  /** The columns that have an editor, each guarded by `editCheck`. */
  predicate EditableField(key: string)
  {
    key in [Editors.NAME, Editors.EMAIL, Editors.PHONE_NUMBER, Editors.LOCATION,
            Editors.GENDER, Editors.FAVOURITE, Editors.DOB]
  }

  /** No editor writes the id or the mark. */
  lemma EditableFieldKeys(key: string)
    requires EditableField(key)
    ensures key != "id" && key != "isUpdated"
  {
  }

  /** `data?.isUpdated` is truthy. */
  predicate IsUpdated(r: Js)
  {
    Truthy(Member(r, "isUpdated"))
  }

  /** The row's index field (the grid's `index` option, `id` by default). */
  function Id(r: Js): Js
  {
    Member(r, "id")
  }

  /** An id the grid's row lookup can match: a number or a string. An undefined, null or
      object id matches no row. */
  predicate IsRowKey(id: Js)
  {
    id.Num? || id.Str?
  }

  /** A row's data: a well-formed plain object whose `id` is a number or a string. */
  predicate IsRecord(r: Js)
  {
    r.Obj? && Clone.WellFormed(r) && IsRowKey(Id(r))
  }

  /** The rows on the page: records whose ids tell them apart. */
  predicate ValidRows(rows: seq<Js>)
  {
    (forall i :: 0 <= i < |rows| ==> IsRecord(rows[i]))
    && forall i, j :: 0 <= i < j < |rows| ==> Id(rows[i]) != Id(rows[j])
  }

  /** A selection: row positions, each once, in the order the rows were selected. */
  predicate ValidSelection(rows: seq<Js>, sel: seq<nat>)
  {
    Distinct(sel) && forall k :: 0 <= k < |sel| ==> sel[k] < |rows|
  }

  /** `getSelectedData()`: the data of the selected rows, in selection order. */
  function SelectedData(rows: seq<Js>, sel: seq<nat>): seq<Js>
    requires forall k :: 0 <= k < |sel| ==> sel[k] < |rows|
  {
    seq(|sel|, k requires 0 <= k < |sel| => rows[sel[k]])
  }

  /** The expression `toggleUpdateButton` stores in `updateBtn.disabled`. */
  predicate UpdateDisabled(data: seq<Js>)
  {
    |data| == 0 || |Filter(IsUpdated, data)| == 0
  }

  /** The button is disabled exactly when no selected record is marked updated, which
      includes an empty selection. */
  lemma UpdateDisabledIff(data: seq<Js>)
    ensures UpdateDisabled(data) <==> forall i :: 0 <= i < |data| ==> !IsUpdated(data[i])
  {
    FilterEmpty(IsUpdated, data);
  }

  /** `getSelectedData()?.filter((data) => data?.isUpdated)`. */
  function UpdatedRecords(data: seq<Js>): seq<Js>
  {
    Filter(IsUpdated, data)
  }

  /** The positions of the selected rows that are marked updated, in selection order. */
  function UpdatedPositions(rows: seq<Js>, sel: seq<nat>): seq<nat>
  {
    Filter((p: nat) => p < |rows| && IsUpdated(rows[p]), sel)
  }

  /** The rows at the updated positions are exactly the updated records among the selected
      data, in the same order: the batch refers to the rows that `filter` picks. */
  lemma {:induction false} UpdatedPositionsData(rows: seq<Js>, sel: seq<nat>)
    requires forall k :: 0 <= k < |sel| ==> sel[k] < |rows|
    ensures forall k :: 0 <= k < |UpdatedPositions(rows, sel)| ==> UpdatedPositions(rows, sel)[k] < |rows|
    ensures SelectedData(rows, UpdatedPositions(rows, sel)) == UpdatedRecords(SelectedData(rows, sel))
  {
    var ps := UpdatedPositions(rows, sel);
    assert forall k :: 0 <= k < |ps| ==> ps[k] in sel;
    if sel != [] {
      var data := SelectedData(rows, sel);
      UpdatedPositionsData(rows, sel[1..]);
      assert data[0] == rows[sel[0]];
      assert data[1..] == SelectedData(rows, sel[1..]);
      var tail := UpdatedPositions(rows, sel[1..]);
      if IsUpdated(rows[sel[0]]) {
        assert ps == [sel[0]] + tail;
        assert SelectedData(rows, ps) == [rows[sel[0]]] + SelectedData(rows, tail);
      } else {
        assert ps == tail;
      }
    }
  }

  /** The updated positions are the selected positions whose rows are marked updated. */
  /** With the update button enabled, the batch holds at least one position. */
  lemma UpdatedPositionsNonEmpty(rows: seq<Js>, sel: seq<nat>)
    requires forall k :: 0 <= k < |sel| ==> sel[k] < |rows|
    ensures !UpdateDisabled(SelectedData(rows, sel)) ==> UpdatedPositions(rows, sel) != []
  {
    if !UpdateDisabled(SelectedData(rows, sel)) {
      UpdateDisabledIff(SelectedData(rows, sel));
      UpdatedPositionsMembers(rows, sel);
      var k :| 0 <= k < |sel| && IsUpdated(SelectedData(rows, sel)[k]);
      assert sel[k] in UpdatedPositions(rows, sel);
    }
  }

  lemma UpdatedPositionsMembers(rows: seq<Js>, sel: seq<nat>)
    requires forall k :: 0 <= k < |sel| ==> sel[k] < |rows|
    ensures forall k :: 0 <= k < |UpdatedPositions(rows, sel)| ==>
      UpdatedPositions(rows, sel)[k] in sel && IsUpdated(rows[UpdatedPositions(rows, sel)[k]])
    ensures forall k :: 0 <= k < |sel| && IsUpdated(rows[sel[k]]) ==> sel[k] in UpdatedPositions(rows, sel)
  {
    var ps := UpdatedPositions(rows, sel);
    assert forall k :: 0 <= k < |ps| ==> ps[k] in ps;
    forall k | 0 <= k < |sel| && IsUpdated(rows[sel[k]])
      ensures sel[k] in ps
    {
      FilterKeeps((p: nat) => p < |rows| && IsUpdated(rows[p]), sel, k);
    }
  }

  /** The body posted to the update endpoint: `{ updates: updatedRecords }`. */
  function Payload(records: seq<Js>): Js
  {
    Obj([("updates", Arr(records))])
  }

  /** What `updateRecord` hands back: the server's response, or the error axios rejected
      with, whose `status` and response `data` may be missing (`undefined`). */
  datatype Response =
    | Resolved(code: int)
    | Rejected(status: Js, data: Js)

  /** `response.status`. */
  function Status(r: Response): Js
  {
    match r
    case Resolved(code) => Num(code)
    case Rejected(status, _) => status
  }

  /** `response?.response?.data?.error`: only a rejection carries the server's reply. */
  function ErrorField(r: Response): Js
  {
    match r
    case Resolved(_) => Undefined
    case Rejected(_, data) => Member(data, "error")
  }

  predicate Succeeded(r: Response)
  {
    Status(r) == Num(200)
  }

  /** The alert shown when the save did not succeed. */
  function FailureMessage(r: Response): string
  {
    var e := ErrorField(r);
    if Truthy(e) then ToString(e) else FALLBACK_MESSAGE
  }

  /** The server's `error` text is shown when it sends one; a response without it (any
      resolved response, a network error, an empty body) shows the fallback text. */
  lemma FailureMessageCases(r: Response)
    ensures r.Resolved? ==> FailureMessage(r) == FALLBACK_MESSAGE
    ensures r.Rejected? && r.data.Obj? && Get(r.data.props, "error").Some?
            && Get(r.data.props, "error").value.Str? && Get(r.data.props, "error").value.s != ""
            ==> FailureMessage(r) == Get(r.data.props, "error").value.s
    ensures r.Rejected? && !r.data.Obj? ==> FailureMessage(r) == FALLBACK_MESSAGE
  {
  }

  /** A 500 with body `{error: "db locked"}` is reported as "db locked". */
  lemma ServerErrorReported()
    ensures FailureMessage(Rejected(Num(500), Obj([("error", Str("db locked"))]))) == "db locked"
    ensures !Succeeded(Rejected(Num(500), Obj([("error", Str("db locked"))])))
  {
    var ps := [("error", Str("db locked"))];
    assert Keys(ps) == ["error"];
    IndexOfUnique(Keys(ps), "error", 0);
  }

  /** The ids of the rows, in order. */
  function Ids(rows: seq<Js>): (ids: seq<Js>)
    ensures |ids| == |rows| && forall j :: 0 <= j < |rows| ==> ids[j] == Id(rows[j])
  {
    seq(|rows|, j requires 0 <= j < |rows| => Id(rows[j]))
  }

  /** The grid's `findRow(id)`: the first row whose index field equals `id`; an id that is
      not a number or a string finds nothing. */
  function FindRow(rows: seq<Js>, id: Js): (r: Option<nat>)
    ensures r.Some? ==> r.value < |rows| && Id(rows[r.value]) == id
    ensures r.None? ==> !IsRowKey(id) || forall j :: 0 <= j < |rows| ==> Id(rows[j]) != id
  {
    if !IsRowKey(id) || id !in Ids(rows) then None
    else Some(IndexOf(Ids(rows), id))
  }

  /** With distinct ids, a row's own id finds that row. */
  lemma FindOwnRow(rows: seq<Js>, p: nat)
    requires ValidRows(rows) && p < |rows|
    ensures FindRow(rows, Id(rows[p])) == Some(p)
  {
    var ids := Ids(rows);
    assert ids[p] == Id(rows[p]);
    assert Id(rows[p]) !in ids[..p];
    IndexOfUnique(ids, Id(rows[p]), p);
  }

  /** The grid's `updateData` for one item: the row with the item's id takes every property
      of the item, in the item's order; an item matching no row changes nothing. */
  function UpdateRow(rows: seq<Js>, item: Js): (r: seq<Js>)
    ensures |r| == |rows|
  {
    if !item.Obj? then rows
    else match FindRow(rows, Id(item))
      case None => rows
      case Some(j) =>
        if rows[j].Obj? then rows[j := Obj(Merge(rows[j].props, item.props))] else rows
  }

  /** `updateData(items)`: the items applied in order. */
  function UpdateRows(rows: seq<Js>, items: seq<Js>): (r: seq<Js>)
    ensures |r| == |rows|
  {
    if items == [] then rows
    else UpdateRow(UpdateRows(rows, items[..|items| - 1]), items[|items| - 1])
  }

  /** The `cellEdited` handler's `updateData([{...updatedData, isUpdated: true}])` sets
      `isUpdated` on that row, in place, and leaves every other row alone. */
  lemma MarkUpdated(rows: seq<Js>, i: nat)
    requires ValidRows(rows) && i < |rows|
    ensures UpdateRows(rows, [Obj(Assign(rows[i].props, "isUpdated", Bool(true)))])
            == rows[i := Obj(Assign(rows[i].props, "isUpdated", Bool(true)))]
  {
    var ps := rows[i].props;
    var q := Assign(ps, "isUpdated", Bool(true));
    var items := [Obj(q)];
    assert items[..0] == [];
    GetAssign(ps, "isUpdated", Bool(true), "id");
    assert Id(Obj(q)) == Id(rows[i]);
    AssignDistinct(ps, "isUpdated", Bool(true));
    assert Keys(q)[..|ps|] == Keys(ps);
    MergeOntoPrefix(ps, q);
    FindOwnRow(rows, i);
  }

  /** Writing rows' own data objects back through `updateData` changes nothing: each row takes
      the properties it already has, in the order it already has them. */
  lemma UpdateOwnRow(rows: seq<Js>, p: nat)
    requires ValidRows(rows) && p < |rows|
    ensures UpdateRow(rows, rows[p]) == rows
  {
    FindOwnRow(rows, p);
    var ps := rows[p].props;
    assert Keys(ps)[..|ps|] == Keys(ps);
    MergeOntoPrefix(ps, ps);
  }

  lemma {:induction false} UpdateRowsOwn(rows: seq<Js>, batch: seq<nat>)
    requires ValidRows(rows) && forall k :: 0 <= k < |batch| ==> batch[k] < |rows|
    ensures UpdateRows(rows, SelectedData(rows, batch)) == rows
  {
    var items := SelectedData(rows, batch);
    if batch != [] {
      var n := |batch|;
      assert items[..n - 1] == SelectedData(rows, batch[..n - 1]);
      UpdateRowsOwn(rows, batch[..n - 1]);
      UpdateOwnRow(rows, batch[n - 1]);
    }
  }

  /** Setting an editable field (or the `isUpdated` mark) on a row keeps the rows valid and
      keeps every row's id; setting an editable field leaves the row's mark as it was. */
  lemma AssignKeepsRows(rows: seq<Js>, i: nat, key: string, v: Js)
    requires ValidRows(rows) && i < |rows| && key != "id" && Clone.WellFormed(v)
    ensures ValidRows(rows[i := Obj(Assign(rows[i].props, key, v))])
    ensures Ids(rows[i := Obj(Assign(rows[i].props, key, v))]) == Ids(rows)
    ensures key != "isUpdated" ==> IsUpdated(Obj(Assign(rows[i].props, key, v))) == IsUpdated(rows[i])
    ensures IsUpdated(Obj(Assign(rows[i].props, "isUpdated", Bool(true))))
  {
    AssignRecord(rows[i], key, v);
    AssignRecord(rows[i], "isUpdated", Bool(true));
    ReplaceRow(rows, i, Obj(Assign(rows[i].props, key, v)));
  }

  /** An edit through a column's editor keeps the rows and the selection valid, and the edited
      field holds the new value once the row is also marked. */
  lemma EditedRows(rows: seq<Js>, sel: seq<nat>, i: nat, key: string, v: Js)
    requires ValidRows(rows) && ValidSelection(rows, sel) && i < |rows|
    requires EditableField(key) && Clone.WellFormed(v)
    ensures ValidRows(rows[i := Obj(Assign(rows[i].props, key, v))])
    ensures ValidSelection(rows[i := Obj(Assign(rows[i].props, key, v))], sel)
    ensures Member(Obj(Assign(Assign(rows[i].props, key, v), "isUpdated", Bool(true))), key) == v
    ensures var edited := rows[i := Obj(Assign(rows[i].props, key, v))];
      edited[i := Obj(Assign(edited[i].props, "isUpdated", Bool(true)))]
      == rows[i := Obj(Assign(Assign(rows[i].props, key, v), "isUpdated", Bool(true)))]
  {
    EditableFieldKeys(key);
    AssignKeepsRows(rows, i, key, v);
    GetAssign(rows[i].props, key, v, key);
    GetAssign(Assign(rows[i].props, key, v), "isUpdated", Bool(true), key);
  }

  /** Assigning any property but the id keeps a record a record with the same id. */
  lemma AssignRecord(r: Js, key: string, v: Js)
    requires IsRecord(r) && key != "id" && Clone.WellFormed(v)
    ensures IsRecord(Obj(Assign(r.props, key, v))) && Id(Obj(Assign(r.props, key, v))) == Id(r)
    ensures Member(Obj(Assign(r.props, key, v)), key) == v
    ensures key != "isUpdated" ==> IsUpdated(Obj(Assign(r.props, key, v))) == IsUpdated(r)
  {
    Clone.AssignWellFormed(r.props, key, v);
    GetAssign(r.props, key, v, "id");
    GetAssign(r.props, key, v, key);
    GetAssign(r.props, key, v, "isUpdated");
  }

  /** Replacing a row by a record with the same id keeps the rows valid and their ids. */
  lemma ReplaceRow(rows: seq<Js>, i: nat, r: Js)
    requires ValidRows(rows) && i < |rows| && IsRecord(r) && Id(r) == Id(rows[i])
    ensures ValidRows(rows[i := r]) && Ids(rows[i := r]) == Ids(rows)
  {
    assert forall j :: 0 <= j < |rows| ==> Id(rows[i := r][j]) == Id(rows[j]);
  }

  /** A record after `o[key] = value` and `o["isUpdated"] = true`: marked updated, `value` at
      `key` unless `key` is the mark itself, every other property as before. */
  lemma ChangedRecord(ps: seq<(string, Js)>, key: string, value: Js)
    ensures Member(Obj(Assign(Assign(ps, key, value), "isUpdated", Bool(true))), "isUpdated") == Bool(true)
    ensures key != "isUpdated" ==> Member(Obj(Assign(Assign(ps, key, value), "isUpdated", Bool(true))), key) == value
    ensures forall k :: k != key && k != "isUpdated" ==>
      Member(Obj(Assign(Assign(ps, key, value), "isUpdated", Bool(true))), k) == Member(Obj(ps), k)
  {
    var edited := Assign(ps, key, value);
    forall k | k != key && k != "isUpdated"
      ensures Member(Obj(Assign(edited, "isUpdated", Bool(true))), k) == Member(Obj(ps), k)
    {
      GetAssign(ps, key, value, k);
      GetAssign(edited, "isUpdated", Bool(true), k);
    }
    GetAssign(ps, key, value, key);
    GetAssign(edited, "isUpdated", Bool(true), key);
    GetAssign(edited, "isUpdated", Bool(true), "isUpdated");
  }

  /** `after` is `before` with record `index` given `value` at `key` and the `isUpdated`
      mark, and nothing else changed. */
  ghost predicate ChangedOnly(before: seq<Js>, after: seq<Js>, index: int, key: string, value: Js)
  {
    |after| == |before| && 0 <= index < |before|
    && (forall j :: 0 <= j < |before| && j != index ==> after[j] == before[j])
    && Member(after[index], "isUpdated") == Bool(true)
    && (key != "isUpdated" ==> Member(after[index], key) == value)
    && forall k :: k != key && k != "isUpdated" ==> Member(after[index], k) == Member(before[index], k)
  }

  lemma ChangedOnlyOne(data: seq<Js>, index: nat, key: string, value: Js)
    requires index < |data| && data[index].Obj?
    ensures ChangedOnly(data, data[index := Obj(Assign(Assign(data[index].props, key, value), "isUpdated", Bool(true)))], index, key, value)
  {
    ChangedRecord(data[index].props, key, value);
  }

  /** The selected data are records, so the clone of their list is defined. */
  lemma SelectedRecords(rows: seq<Js>, sel: seq<nat>)
    requires ValidRows(rows) && forall k :: 0 <= k < |sel| ==> sel[k] < |rows|
    ensures Clone.WellFormed(Arr(SelectedData(rows, sel)))
    ensures forall k :: 0 <= k < |sel| ==> SelectedData(rows, sel)[k].Obj?
  {
    var data := SelectedData(rows, sel);
    assert forall k :: 0 <= k < |sel| ==> IsRecord(data[k]);
  }

  /** `editCheck`: a cell may be edited only while its row is selected. */
  predicate EditCheck(sel: seq<nat>, i: nat)
  {
    i in sel
  }

  /** A value `v` from the editor of column `key` on row `i` reaches the row and fires
      `cellEdited`: the column has an editor, `editCheck` lets it open, and the value differs
      from the cell's. */
  predicate Commits(rows: seq<Js>, sel: seq<nat>, i: nat, key: string, v: Js)
    requires i < |rows|
  {
    EditableField(key) && EditCheck(sel, i) && Member(rows[i], key) != v
  }

  /** `deselectRow(ids)`: every selected row whose id is listed leaves the selection. */
  function Deselect(rows: seq<Js>, sel: seq<nat>, ids: seq<Js>): seq<nat>
  {
    Filter((p: nat) => !(p < |rows| && Id(rows[p]) in ids), sel)
  }

  /** Deselecting the ids of the selected data, as the save handler does, empties the selection. */
  lemma DeselectSelected(rows: seq<Js>, sel: seq<nat>)
    requires forall k :: 0 <= k < |sel| ==> sel[k] < |rows|
    ensures Deselect(rows, sel, Ids(SelectedData(rows, sel))) == []
  {
    var ids := Ids(SelectedData(rows, sel));
    forall k | 0 <= k < |sel|
      ensures Id(rows[sel[k]]) in ids
    {
      assert ids[k] == Id(rows[sel[k]]);
    }
    FilterEmpty((p: nat) => !(p < |rows| && Id(rows[p]) in ids), sel);
  }

  /** `toggleSelect()` on the row at `p`: a selected row leaves the selection, another joins
      it last. */
  function Toggled(sel: seq<nat>, p: nat): seq<nat>
  {
    if p in sel then Filter((q: nat) => q != p, sel) else sel + [p]
  }

  lemma ToggledSelection(rows: seq<Js>, sel: seq<nat>, p: nat)
    requires ValidSelection(rows, sel) && p < |rows|
    ensures ValidSelection(rows, Toggled(sel, p))
    ensures forall q :: q in Toggled(sel, p) <==> (q in sel) != (q == p)
    ensures p !in sel ==> Toggled(sel, p) == sel + [p]
    ensures p in sel ==> Toggled(sel, p) == sel[..IndexOf(sel, p)] + sel[IndexOf(sel, p) + 1..]
  {
    if p in sel {
      RemoveInPlace((q: nat) => q != p, sel, p);
      FilterDistinct((q: nat) => q != p, sel);
      var t := Toggled(sel, p);
      forall k | 0 <= k < |t|
        ensures t[k] < |rows|
      {
        assert t[k] in sel;
      }
      forall q | q in sel && q != p
        ensures q in Toggled(sel, p)
      {
        var k :| 0 <= k < |sel| && sel[k] == q;
        FilterKeeps((q: nat) => q != p, sel, k);
      }
    }
  }

  /** The page's grid together with the update button, the confirmation modal and the alerts
      shown so far. */
  class Table {
    /** Each row's data object, in page order. */
    var rows: seq<Js>
    /** The selected rows' positions, in selection order. */
    var selected: seq<nat>
    /** `updateBtn.disabled`. */
    var updateDisabled: bool
    /** Whether the confirmation modal is showing. */
    var modalOpen: bool
    /** The messages passed to `alert`, oldest first. */
    var alerts: seq<string>
    /** How many times `refreshFilter` has run. */
    var filterRefreshes: nat

    /** The rows are records with distinct ids, the selection points at rows, and the button
        shows what `toggleUpdateButton` last computed, which is always current. */
    predicate Valid()
      reads this
    {
      ValidRows(rows) && ValidSelection(rows, selected)
      && updateDisabled == UpdateDisabled(SelectedData(rows, selected))
    }

    /** The page once the grid holds `data`: nothing selected, the button disabled. */
    constructor(data: seq<Js>)
      requires ValidRows(data)
      ensures Valid()
      ensures rows == data && selected == [] && updateDisabled && !modalOpen
      ensures alerts == [] && filterRefreshes == 0
    {
      rows := data;
      selected := [];
      updateDisabled := true;
      modalOpen := false;
      alerts := [];
      filterRefreshes := 0;
    }

    /** `toggleUpdateButton`: the button is disabled exactly when no selected row is marked
        updated. */
    method ToggleUpdateButton()
      requires ValidRows(rows) && ValidSelection(rows, selected)
      modifies this
      ensures Valid()
      ensures updateDisabled <==> forall k :: 0 <= k < |selected| ==> !IsUpdated(rows[selected[k]])
      ensures rows == old(rows) && selected == old(selected) && modalOpen == old(modalOpen)
      ensures alerts == old(alerts) && filterRefreshes == old(filterRefreshes)
    {
      var data := SelectedData(rows, selected);
      UpdateDisabledIff(data);
      updateDisabled := |data| == 0 || |UpdatedRecords(data)| == 0;
      assert forall k :: 0 <= k < |selected| ==> data[k] == rows[selected[k]];
    }

    /** Any change of selection the grid makes; it fires `rowSelectionChanged`, whose handler
        runs `toggleUpdateButton`. */
    method SelectionChanged(sel: seq<nat>)
      requires Valid() && ValidSelection(rows, sel)
      modifies this
      ensures Valid() && selected == sel
      ensures updateDisabled <==> forall k :: 0 <= k < |sel| ==> !IsUpdated(rows[sel[k]])
      ensures rows == old(rows) && modalOpen == old(modalOpen)
      ensures alerts == old(alerts) && filterRefreshes == old(filterRefreshes)
    {
      selected := sel;
      ToggleUpdateButton();
    }

    /** A click on a row's selection cell: `cell.getRow().toggleSelect()`. */
    method ToggleSelect(p: nat)
      requires Valid() && p < |rows|
      modifies this
      ensures Valid()
      ensures selected == Toggled(old(selected), p)
      ensures forall q :: q in selected <==> (q in old(selected)) != (q == p)
      ensures p !in old(selected) ==> selected == old(selected) + [p]
      ensures rows == old(rows) && modalOpen == old(modalOpen)
      ensures alerts == old(alerts) && filterRefreshes == old(filterRefreshes)
    {
      ToggledSelection(rows, selected, p);
      SelectionChanged(Toggled(selected, p));
    }

    /** An editor hands `v` back for column `key` of row `i`. The grid opens the editor only
        when the column has one and `editCheck` allows it, and fires `cellEdited` only when
        the value differs from the cell's; the handler then marks the row updated and
        re-evaluates the button, which ends up enabled since the row is selected. */
    method EditCell(i: nat, key: string, v: Js)
      requires Valid() && i < |rows| && Clone.WellFormed(v)
      modifies this
      ensures Valid()
      ensures Commits(old(rows), old(selected), i, key, v) ==>
        rows == old(rows)[i := Obj(Assign(Assign(old(rows)[i].props, key, v), "isUpdated", Bool(true)))]
        && IsUpdated(rows[i]) && Member(rows[i], key) == v && !updateDisabled
      ensures !Commits(old(rows), old(selected), i, key, v) ==>
        rows == old(rows) && updateDisabled == old(updateDisabled)
      ensures selected == old(selected) && modalOpen == old(modalOpen)
      ensures alerts == old(alerts) && filterRefreshes == old(filterRefreshes)
    {
      if Commits(rows, selected, i, key, v) {
        EditedRows(rows, selected, i, key, v);
        rows := rows[i := Obj(Assign(rows[i].props, key, v))];
        OnCellEdited(i);
      }
    }

    /** The `cellEdited` handler for a cell of row `i`: the row's data, spread with
        `isUpdated: true`, goes back through `updateData`, then the button is re-evaluated. */
    method OnCellEdited(i: nat)
      requires ValidRows(rows) && ValidSelection(rows, selected) && i < |rows|
      modifies this
      ensures Valid()
      ensures rows == old(rows)[i := Obj(Assign(old(rows)[i].props, "isUpdated", Bool(true)))]
      ensures IsUpdated(rows[i])
      ensures i in selected ==> !updateDisabled
      ensures selected == old(selected) && modalOpen == old(modalOpen)
      ensures alerts == old(alerts) && filterRefreshes == old(filterRefreshes)
    {
      var item := Obj(Assign(rows[i].props, "isUpdated", Bool(true)));
      MarkUpdated(rows, i);
      AssignKeepsRows(rows, i, "isUpdated", Bool(true));
      rows := UpdateRows(rows, [item]);
      ToggleUpdateButton();
      if i in selected {
        var k :| 0 <= k < |selected| && selected[k] == i;
        assert IsUpdated(rows[selected[k]]);
      }
    }

    /** A click on the update button opens the confirmation modal; a disabled button takes no
        clicks. */
    method ClickUpdate()
      requires Valid()
      modifies this
      ensures Valid()
      ensures modalOpen == (old(modalOpen) || !updateDisabled)
      ensures rows == old(rows) && selected == old(selected) && updateDisabled == old(updateDisabled)
      ensures alerts == old(alerts) && filterRefreshes == old(filterRefreshes)
    {
      if !updateDisabled {
        modalOpen := true;
      }
    }

    /** The confirm button: the modal closes and the selected rows marked updated are posted,
        in selection order. The batch is returned as row positions, since the records posted
        are the rows' own data objects. */
    method ConfirmSave() returns (batch: seq<nat>, payload: Js)
      requires Valid() && modalOpen
      modifies this
      ensures Valid() && !modalOpen
      ensures !updateDisabled ==> batch != []
      ensures payload == Payload(UpdatedRecords(SelectedData(rows, selected)))
      ensures forall k :: 0 <= k < |batch| ==> batch[k] in selected && IsUpdated(rows[batch[k]])
      ensures forall k :: 0 <= k < |selected| && IsUpdated(rows[selected[k]]) ==> selected[k] in batch
      ensures SelectedData(rows, batch) == UpdatedRecords(SelectedData(rows, selected))
      ensures rows == old(rows) && selected == old(selected) && updateDisabled == old(updateDisabled)
      ensures alerts == old(alerts) && filterRefreshes == old(filterRefreshes)
    {
      modalOpen := false;
      var records := UpdatedRecords(SelectedData(rows, selected));
      batch := UpdatedPositions(rows, selected);
      UpdatedPositionsData(rows, selected);
      UpdatedPositionsMembers(rows, selected);
      payload := Payload(records);
      UpdatedPositionsNonEmpty(rows, selected);
    }

    /** The rest of the confirm handler, once `updateRecord` has answered `response`.
        `headerFilters` is the number of header filters in use. On status 200 the success
        alert shows, the batch's records are written back (changing nothing, so they stay
        marked updated), the selected rows are deselected (disabling the button), and the
        filters are refreshed when any are in use. Otherwise the failure message shows and
        the table stays as it was. */
    method OnUpdateResponse(batch: seq<nat>, response: Response, headerFilters: nat)
      requires Valid() && forall k :: 0 <= k < |batch| ==> batch[k] < |rows|
      modifies this
      ensures Valid() && rows == old(rows) && modalOpen == old(modalOpen)
      ensures Succeeded(response) ==>
        selected == [] && updateDisabled
        && alerts == old(alerts) + [SUCCESS_MESSAGE]
        && filterRefreshes == old(filterRefreshes) + (if headerFilters > 0 then 1 else 0)
      ensures !Succeeded(response) ==>
        selected == old(selected) && updateDisabled == old(updateDisabled)
        && alerts == old(alerts) + [FailureMessage(response)]
        && filterRefreshes == old(filterRefreshes)
    {
      if Succeeded(response) {
        alerts := alerts + [SUCCESS_MESSAGE];
        UpdateRowsOwn(rows, batch);
        rows := UpdateRows(rows, SelectedData(rows, batch));
        var ids := Ids(SelectedData(rows, selected));
        DeselectSelected(rows, selected);
        SelectionChanged(Deselect(rows, selected, ids));
        if headerFilters > 0 {
          filterRefreshes := filterRefreshes + 1;
        }
      } else {
        alerts := alerts + [FailureMessage(response)];
      }
    }
  
    /** `handleChange(value, key, index)`: the selected data is deep-cloned, and record `index`
        of the clone takes `value` at `key` and `isUpdated: true`. The table is not written,
        and an index with no record throws, as setting a property of `undefined` does. The
        clone, which the source discards, is returned so that its contents can be stated. */
    method HandleChange(value: Js, key: string, index: int) returns (r: Result<seq<Js>>)
      requires Valid()
      ensures r.Ok? <==> 0 <= index < |selected|
      ensures r.Ok? ==> ChangedOnly(SelectedData(rows, selected), r.value, index, key, value)
      ensures r.Ok? ==> IsUpdated(r.value[index])
    {
      var data := SelectedData(rows, selected);
      SelectedRecords(rows, selected);
      var cloned := Clone.DeepClone(Arr(data)).elems;
      if !(0 <= index < |cloned|) {
        return Err("TypeError: cannot set properties of undefined");
      }
      var copy := cloned;
      copy := copy[index := Obj(Assign(copy[index].props, key, value))];
      copy := copy[index := Obj(Assign(copy[index].props, "isUpdated", Bool(true)))];
      ChangedOnlyOne(data, index, key, value);
      r := Ok(copy);
    }
  }

  /** The first half of an operator session on a fresh page: select row `p` and change its
      email to `email`. The row then holds the new email and the mark, keeps its id, and the
      update button is enabled. */
  method SelectAndEdit(data: seq<Js>, p: nat, email: string) returns (t: Table)
    requires ValidRows(data) && p < |data| && Member(data[p], Editors.EMAIL) != Str(email)
    ensures fresh(t) && t.Valid() && t.selected == [p] && p < |t.rows|
    ensures Member(t.rows[p], Editors.EMAIL) == Str(email) && IsUpdated(t.rows[p])
    ensures Id(t.rows[p]) == Id(data[p])
  {
    assert EditableField(Editors.EMAIL);
    t := new Table(data);
    t.ToggleSelect(p);
    assert t.selected == [p];
    t.EditCell(p, Editors.EMAIL, Str(email));
    AssignRecord(data[p], Editors.EMAIL, Str(email));
    AssignRecord(Obj(Assign(data[p].props, Editors.EMAIL, Str(email))), "isUpdated", Bool(true));
  }

  /** One operator session on a fresh page: select row `p`, change its email to `email`,
      click update, confirm, and receive status 200. The batch posted is that one record
      with the new email and the mark; afterwards nothing is selected, the button is
      disabled, and the row still carries the mark. */
  method EditThenSave(data: seq<Js>, p: nat, email: string)
    returns (payload: Js, after: Js, rowAfterSave: Js, selectedAfter: seq<nat>, disabledAfter: bool)
    requires ValidRows(data) && p < |data| && Member(data[p], Editors.EMAIL) != Str(email)
    ensures payload == Payload([after])
    ensures Member(after, Editors.EMAIL) == Str(email) && IsUpdated(after)
    ensures Id(after) == Id(data[p])
    ensures rowAfterSave == after
    ensures selectedAfter == [] && disabledAfter
  {
    var t := SelectAndEdit(data, p, email);
    after := t.rows[p];
    t.ClickUpdate();
    var batch;
    batch, payload := t.ConfirmSave();
    assert SelectedData(t.rows, t.selected) == [after];
    assert UpdatedRecords([after]) == [after];
    t.OnUpdateResponse(batch, Resolved(200), 0);
    rowAfterSave := t.rows[p];
    selectedAfter := t.selected;
    disabledAfter := t.updateDisabled;
  }
}
