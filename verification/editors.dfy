/** The cell and header-filter editors: which key presses commit or cancel an edit, which
    input type a form field gets, and the value the date editors hand back to the grid. */
module Editors {
  import opened Wrappers
  import opened JsValue

  /** The field keys of an updatable record (`UpdateKeys`). */
  const EMAIL := "email"
  const NAME := "name"
  const DOB := "dob"
  const LOCATION := "location"
  const PHONE_NUMBER := "phone_number"
  const GENDER := "gender"
  const FAVOURITE := "favourite"

  /** What Luxon prints for a date it could not parse. */
  const INVALID_DATE := "Invalid DateTime"

  /** The two callbacks a key handler can run: submit the input (`onChange`) or abort (`cancel`). */
  datatype KeyAction = Commit | Cancel

  /** `handleKeyDown`: the callbacks one key press runs, in the order it runs them. */
  function HandleKeyDown(key: string): (r: seq<KeyAction>)
    ensures |r| <= 1
    ensures Commit in r <==> key == "Enter"
    ensures Cancel in r <==> key == "Escape"
  {
    (if key == "Enter" then [Commit] else []) + (if key == "Escape" then [Cancel] else [])
  }

  /** `getInputType`: the HTML input type used for a form field. */
  function GetInputType(key: string): (r: string)
    ensures r == "email" <==> key == EMAIL
    ensures r == "date" <==> key == DOB
    ensures r == "text" <==> key != EMAIL && key != DOB
  {
    if key == EMAIL then "email"
    else if key == DOB then "date"
    else "text"
  }

  /** What reaches an editor's input element: a `change` event, or a key press; each carries
      the input's value at that moment. */
  datatype EditorEvent = Change(input: string) | KeyDown(key: string, input: string)

  /** How an edit ends: a value passed to `success`, a `cancel`, or still open. */
  datatype Outcome = Success(value: Js) | Cancelled | Pending

  /** An event ends the edit when it is a `change` or a key press that runs a callback. */
  predicate Resolves(e: EditorEvent)
  {
    e.Change? || HandleKeyDown(e.key) != []
  }

  /** How an event that ends the edit ends it; `commit` is the editor's `onChange`. */
  function Resolution(e: EditorEvent, commit: string -> Js): Outcome
  {
    if e.Change? || HandleKeyDown(e.key) == [Commit] then Success(commit(e.input))
    else if HandleKeyDown(e.key) == [Cancel] then Cancelled
    else Pending
  }

  /** The cell date editor's listeners fed `events` in order. The grid acts on the first
      `success` or `cancel` of a cell editor and tears it down, so later events change
      nothing. */
  function RunEditor(events: seq<EditorEvent>, commit: string -> Js): Outcome
  {
    if events == [] then Pending
    else
      var acts := if events[0].KeyDown? then HandleKeyDown(events[0].key) else [];
      if events[0].Change? || acts == [Commit] then Success(commit(events[0].input))
      else if acts == [Cancel] then Cancelled
      else RunEditor(events[1..], commit)
  }

  /** The edit ends as the first event that ends it says, whatever follows; with no such event
      it stays open. */
  lemma {:induction false} RunEditorFirst(events: seq<EditorEvent>, commit: string -> Js, i: nat)
    requires i <= |events|
    requires forall j :: 0 <= j < i ==> !Resolves(events[j])
    ensures i < |events| && Resolves(events[i]) ==> RunEditor(events, commit) == Resolution(events[i], commit)
    ensures i == |events| ==> RunEditor(events, commit) == Pending
  {
    if i > 0 {
      assert !Resolves(events[0]);
      assert events[0].KeyDown? && HandleKeyDown(events[0].key) == [];
      RunEditorFirst(events[1..], commit, i - 1);
    }
  }

  /** Escape before anything else aborts the edit, whatever the input holds. */
  lemma EscapeCancels(input: string, rest: seq<EditorEvent>, commit: string -> Js)
    ensures RunEditor([KeyDown("Escape", input)] + rest, commit) == Cancelled
  {
    assert HandleKeyDown("Escape") == [Cancel];
  }

  /** Enter and `change` both submit the input through `onChange`. */
  lemma EnterCommits(input: string, rest: seq<EditorEvent>, commit: string -> Js)
    ensures RunEditor([KeyDown("Enter", input)] + rest, commit) == Success(commit(input))
    ensures RunEditor([Change(input)] + rest, commit) == Success(commit(input))
  {
    assert HandleKeyDown("Enter") == [Commit];
  }

  /** An event that makes the header date editor call `success`: a `change`, or Enter. */
  predicate Submits(e: EditorEvent)
  {
    e.Change? || HandleKeyDown(e.key) == [Commit]
  }

  /** The header date editor fed `events` in order: the values it passes to `success`. A
      header filter's input stays in the column header, so every `change` and every Enter
      submits the input's text as it is, and the `cancel` the grid gives a header filter does
      nothing. */
  function HeaderFilterValues(events: seq<EditorEvent>): (r: seq<Js>)
    ensures |r| <= |events|
  {
    if events == [] then []
    else (if Submits(events[0]) then [Str(events[0].input)] else []) + HeaderFilterValues(events[1..])
  }

  /** Each value the header date editor submits is the raw text of an event that submits, and
      there is one value per such event. */
  lemma {:induction false} HeaderDateRaw(events: seq<EditorEvent>)
    ensures forall k :: 0 <= k < |HeaderFilterValues(events)| ==>
      exists j :: 0 <= j < |events| && Submits(events[j]) && HeaderFilterValues(events)[k] == Str(events[j].input)
    ensures (exists j :: 0 <= j < |events| && Submits(events[j])) <==> HeaderFilterValues(events) != []
  {
    if events != [] {
      HeaderDateRaw(events[1..]);
      var head := if Submits(events[0]) then [Str(events[0].input)] else [];
      var r := HeaderFilterValues(events);
      assert r == head + HeaderFilterValues(events[1..]);
      forall k | 0 <= k < |r|
        ensures exists j :: 0 <= j < |events| && Submits(events[j]) && r[k] == Str(events[j].input)
      {
        if k < |head| {
          assert Submits(events[0]) && r[k] == Str(events[0].input);
        } else {
          var j :| 0 <= j < |events[1..]| && Submits(events[1..][j])
            && HeaderFilterValues(events[1..])[k - |head|] == Str(events[1..][j].input);
          assert events[1..][j] == events[j + 1];
          assert r[k] == HeaderFilterValues(events[1..])[k - |head|];
        }
      }
      if exists j :: 0 <= j < |events| && Submits(events[j]) {
        var j :| 0 <= j < |events| && Submits(events[j]);
        if j > 0 {
          assert events[1..][j - 1] == events[j];
        }
      }
      if r != [] && !Submits(events[0]) {
        var j :| 0 <= j < |events[1..]| && Submits(events[1..][j]);
        assert events[1..][j] == events[j + 1];
      }
    } else {
      assert HeaderFilterValues(events) == [];
    }
  }

  /** A later event adds its own submission after those already made, so the filter in force
      is always the text of the last `change` or Enter. */
  lemma {:induction false} HeaderFilterLater(events: seq<EditorEvent>, e: EditorEvent)
    ensures HeaderFilterValues(events + [e])
            == HeaderFilterValues(events) + (if Submits(e) then [Str(e.input)] else [])
  {
    if events == [] {
      assert [] + [e] == [e];
      assert [e][1..] == [];
    } else {
      var all := events + [e];
      var head := if Submits(events[0]) then [Str(events[0].input)] else [];
      assert all[0] == events[0];
      assert all[1..] == events[1..] + [e];
      assert HeaderFilterValues(all) == head + HeaderFilterValues(events[1..] + [e]);
      assert HeaderFilterValues(events) == head + HeaderFilterValues(events[1..]);
      HeaderFilterLater(events[1..], e);
    }
  }

  /** Escape neither ends nor undoes a header filter: the events after it submit as usual. */
  lemma HeaderEscapeIgnored(input: string, rest: seq<EditorEvent>)
    ensures HeaderFilterValues([KeyDown("Escape", input)] + rest) == HeaderFilterValues(rest)
  {
    assert HandleKeyDown("Escape") == [Cancel];
    assert ([KeyDown("Escape", input)] + rest)[1..] == rest;
  }

  /** Luxon's `fromFormat(s, "yyyy-MM-dd").toFormat("yyyy-MM-dd")` is a parameter `reformat`:
      `Some(d)` for a date it reads, `None` for one it cannot, which prints as invalid. */
  function Reformatted(reformat: string -> Option<string>, input: string): string
  {
    match reformat(input)
    case Some(d) => d
    case None => INVALID_DATE
  }

  /** The cell date editor's `onChange`. `original` is the cell's value and `shown` the
      `yyyy-MM-dd` text the editor opened with. An input still equal to `shown` hands back the
      original value untouched; any other input is reformatted, and an unreadable one is
      submitted as the invalid-date text rather than refused. */
  function DateEditorValue(original: Js, shown: string, reformat: string -> Option<string>, input: string): (r: Js)
    ensures input == shown ==> r == original
    ensures input != shown ==> r.Str? && (reformat(input).None? ==> r.s == INVALID_DATE)
    ensures input != shown && reformat(input).Some? ==> r == Str(reformat(input).value)
  {
    if input != shown then Str(Reformatted(reformat, input)) else original
  }

  /** Leaving the cell date editor with Enter on an unchanged input puts back the cell's own
      value; with an unreadable date it submits the invalid-date text. */
  lemma DateEditorOutcomes(original: Js, shown: string, reformat: string -> Option<string>, input: string)
    ensures RunEditor([KeyDown("Enter", shown)], i => DateEditorValue(original, shown, reformat, i)) == Success(original)
    ensures input != shown && reformat(input).None? ==>
      RunEditor([Change(input)], i => DateEditorValue(original, shown, reformat, i)) == Success(Str(INVALID_DATE))
  {
    assert HandleKeyDown("Enter") == [Commit];
  }
}
