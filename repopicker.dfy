/** Model of internal/tui/components/repopicker/repopicker.go: the picker
    that lets the user choose which repository the section's query is
    scoped to. The component is a small state machine over its options, a
    cursor, a focus flag and a custom-entry mode; `Update` answers one
    message and may emit a picker message to the section.

    The text input of the custom mode is a plain string: the editing that
    the text-input widget performs on each keystroke is an input of the
    model (`KeyMsg.edited`, the widget's value after the keystroke). */
module RepoPicker {
  import opened Wrappers
  import opened Text

  /** One selectable repository: a display title, the `owner/name` value
      (empty for "no repo filter") and a description. */
  datatype RepoOption = RepoOption(title: string, value: string, desc: string)

  /** What the picker tells its section: a choice, or that it was closed. */
  datatype PickerMsg =
    | RepoSelected(value: string, isCustom: bool)
    | RepoCancelled

  /** The five key bindings of the picker, and every other key. */
  datatype KeyAction = Up | Down | Select | Cancel | Custom | Unbound

  /** The default key map: up/k, down/j, enter, esc/ctrl+c and c. */
  function ActionOf(key: string): (r: KeyAction)
    ensures r != Unbound <==>
      key == "up" || key == "k" || key == "down" || key == "j" ||
      key == "enter" || key == "esc" || key == "ctrl+c" || key == "c"
    ensures r == Up <==> key == "up" || key == "k"
    ensures r == Down <==> key == "down" || key == "j"
    ensures r == Cancel <==> key == "esc" || key == "ctrl+c"
    ensures r == Select <==> key == "enter"
    ensures r == Custom <==> key == "c"
  {
    if key == "up" || key == "k" then Up
    else if key == "down" || key == "j" then Down
    else if key == "enter" then Select
    else if key == "esc" || key == "ctrl+c" then Cancel
    else if key == "c" then Custom
    else Unbound
  }

  /** A message the picker receives: a key press, carrying the value the
      text input would hold after it, or any other message. */
  datatype Msg =
    | KeyMsg(key: string, edited: string)
    | OtherMsg

  /** The modelled fields of the picker. */
  datatype PickerState = PickerState(
    options: seq<RepoOption>,
    cursor: int,
    customInput: string,
    isCustomMode: bool,
    focused: bool,
    selectedValue: string)

  /** The cursor never goes negative, and points at an option whenever
      there is one. */
  predicate CursorInRange(s: PickerState) {
    0 <= s.cursor && (s.cursor < |s.options| || s.cursor == 0)
  }

  /** The picker as the source's `NewModel` creates it. */
  const Initial := PickerState([], 0, "", false, false, "")

  /** Update: the new state and the message (if any) that answer `msg`.
      The cursor stays in range. */
  function Step(s: PickerState, msg: Msg): (r: (PickerState, Option<PickerMsg>))
    requires CursorInRange(s)
    ensures CursorInRange(r.0)
  {
    if !s.focused || msg.OtherMsg? then (s, None)
    else if s.isCustomMode then CustomModeStep(s, ActionOf(msg.key), msg.edited)
    else ListModeStep(s, ActionOf(msg.key))
  }

  /** A key in custom mode: cancel returns to the list, enter submits a
      non-empty trimmed input, any other key edits the input. */
  function CustomModeStep(s: PickerState, action: KeyAction, edited: string): (r: (PickerState, Option<PickerMsg>))
    requires CursorInRange(s)
    ensures CursorInRange(r.0)
    ensures r.0.options == s.options && r.0.cursor == s.cursor
  {
    if action == Cancel then
      (s.(isCustomMode := false, customInput := ""), None)
    else if action == Select then
      var value := TrimSpace(s.customInput);
      if value != "" then
        (s.(focused := false, isCustomMode := false), Some(RepoSelected(value, true)))
      else
        (s, None)
    else
      (s.(customInput := edited), None)
  }

  /** A key in list mode: moves, selection, cancellation and the switch
      to custom mode. */
  function ListModeStep(s: PickerState, action: KeyAction): (r: (PickerState, Option<PickerMsg>))
    requires CursorInRange(s)
    ensures CursorInRange(r.0)
    ensures r.0.options == s.options && r.0.customInput == s.customInput
  {
    match action
    case Up =>
      (if s.cursor > 0 then s.(cursor := s.cursor - 1) else s, None)
    case Down =>
      (if s.cursor < |s.options| - 1 then s.(cursor := s.cursor + 1) else s, None)
    case Select =>
      if |s.options| > 0 then
        (s.(focused := false), Some(RepoSelected(s.options[s.cursor].value, false)))
      else
        (s, None)
    case Cancel =>
      (s.(focused := false), Some(RepoCancelled))
    case Custom =>
      (s.(isCustomMode := true), None)
    case Unbound =>
      (s, None)
  }

  /** The index of the first option whose value is `value`, if any. */
  function FirstMatch(options: seq<RepoOption>, value: string): (r: Option<nat>)
    ensures r.Some? ==> r.value < |options| && options[r.value].value == value
    ensures r.Some? ==> forall j :: 0 <= j < r.value ==> options[j].value != value
    ensures r.None? <==> forall j :: 0 <= j < |options| ==> options[j].value != value
  {
    if options == [] then None
    else if options[0].value == value then Some(0)
    else
      match FirstMatch(options[1..], value)
      case Some(i) =>
        assert forall j :: 1 <= j <= i ==> options[j] == options[1..][j - 1];
        Some(i + 1)
      case None =>
        assert forall j :: 1 <= j < |options| ==> options[j] == options[1..][j - 1];
        None
  }

  // ---------------------------------------------------------------------
  // The picker component

  class Model {
    var options: seq<RepoOption>
    var cursor: int
    var customInput: string
    var isCustomMode: bool
    var focused: bool
    var selectedValue: string

    function State(): PickerState
      reads this
    {
      PickerState(options, cursor, customInput, isCustomMode, focused, selectedValue)
    }

    ghost predicate Valid()
      reads this
    {
      CursorInRange(State())
    }

    /** NewModel: no options, cursor 0, list mode, not focused. */
    constructor ()
      ensures State() == Initial && Valid()
    {
      options := [];
      cursor := 0;
      customInput := "";
      isCustomMode := false;
      focused := false;
      selectedValue := "";
    }

    /** SetOptions replaces the options and puts the cursor on the first. */
    method SetOptions(newOptions: seq<RepoOption>)
      modifies this
      ensures State() == old(State()).(options := newOptions, cursor := 0)
      ensures Valid()
    {
      options := newOptions;
      cursor := 0;
    }

    /** Focus opens the picker in list mode with the cursor on the first
        option. */
    method Focus()
      modifies this
      ensures State() == old(State()).(focused := true, isCustomMode := false, cursor := 0)
      ensures Valid()
    {
      focused := true;
      isCustomMode := false;
      cursor := 0;
    }

    /** Blur closes the picker and leaves custom mode; nothing else moves. */
    method Blur()
      modifies this
      ensures State() == old(State()).(focused := false, isCustomMode := false)
      ensures old(Valid()) ==> Valid()
    {
      focused := false;
      isCustomMode := false;
    }

    /** SetSelectedValue records the current value and moves the cursor to
        the first option holding it; with no such option the cursor stays. */
    method SetSelectedValue(value: string)
      modifies this
      ensures var found := FirstMatch(options, value);
        State() == old(State()).(selectedValue := value, cursor := if found.Some? then found.value else old(cursor))
      ensures old(Valid()) ==> Valid()
    {
      selectedValue := value;
      for i := 0 to |options|
        invariant forall j :: 0 <= j < i ==> options[j].value != value
        invariant cursor == old(cursor)
      {
        if options[i].value == value {
          cursor := i;
          return;
        }
      }
    }

    /** Update answers one message, as `Step` does. */
    method Update(msg: Msg) returns (out: Option<PickerMsg>)
      requires Valid()
      modifies this
      ensures (State(), out) == Step(old(State()), msg)
      ensures Valid()
    {
      out := None;
      if !focused || msg.OtherMsg? {
        return;
      }
      var action := ActionOf(msg.key);
      if isCustomMode {
        out := UpdateCustomMode(action, msg.edited);
      } else {
        out := UpdateListMode(action);
      }
    }

    /** The custom-mode half of Update. */
    method UpdateCustomMode(action: KeyAction, edited: string) returns (out: Option<PickerMsg>)
      requires Valid()
      modifies this
      ensures (State(), out) == CustomModeStep(old(State()), action, edited)
      ensures Valid()
    {
      out := None;
      if action == Cancel {
        isCustomMode := false;
        customInput := "";
      } else if action == Select {
        var value := TrimSpace(customInput);
        if value != "" {
          focused := false;
          isCustomMode := false;
          out := Some(RepoSelected(value, true));
        }
      } else {
        customInput := edited;
      }
    }

    /** The list-mode half of Update. */
    method UpdateListMode(action: KeyAction) returns (out: Option<PickerMsg>)
      requires Valid()
      modifies this
      ensures (State(), out) == ListModeStep(old(State()), action)
      ensures Valid()
    {
      out := None;
      match action {
        case Up =>
          if cursor > 0 {
            cursor := cursor - 1;
          }
        case Down =>
          if cursor < |options| - 1 {
            cursor := cursor + 1;
          }
        case Select =>
          if |options| > 0 {
            var selected := options[cursor];
            focused := false;
            out := Some(RepoSelected(selected.value, false));
          }
        case Cancel =>
          focused := false;
          out := Some(RepoCancelled);
        case Custom =>
          isCustomMode := true;
        case Unbound =>
      }
    }
  }

  // ---------------------------------------------------------------------
  // Lemmas: what a step does

  /** A picker that is not focused ignores every message. */
  lemma UnfocusedIgnores(s: PickerState, msg: Msg)
    requires CursorInRange(s) && !s.focused
    ensures Step(s, msg) == (s, None)
  {
  }

  /** A step never changes the options or the recorded current value; a
      focused picker loses focus exactly when it emits a message, and a
      message always leaves custom mode behind. */
  lemma StepFrame(s: PickerState, msg: Msg)
    requires CursorInRange(s)
    ensures var (t, out) := Step(s, msg);
      && t.options == s.options && t.selectedValue == s.selectedValue
      && (s.focused ==> (out.Some? <==> !t.focused))
      && (out.Some? ==> !t.isCustomMode)
  {
  }

  /** In list mode, Up then Down returns to the same option when the
      cursor is not on the first option, and Down then Up when it is not
      on the last; at either end the key does nothing. */
  lemma {:induction false} CursorRoundTrip(s: PickerState)
    requires CursorInRange(s) && s.focused && !s.isCustomMode
    ensures s.cursor > 0 ==> Step(Step(s, KeyMsg("up", "")).0, KeyMsg("down", "")).0 == s
    ensures s.cursor < |s.options| - 1 ==> Step(Step(s, KeyMsg("down", "")).0, KeyMsg("up", "")).0 == s
    ensures s.cursor == 0 ==> Step(s, KeyMsg("up", "")) == (s, None)
    ensures s.cursor >= |s.options| - 1 ==> Step(s, KeyMsg("down", "")) == (s, None)
  {
    assert ActionOf("up") == Up;
    assert ActionOf("down") == Down;
  }

  /** In list mode, Select emits the option under the cursor (not custom)
      and closes the picker; with no options it does nothing. */
  lemma ListSelect(s: PickerState, key: string, edited: string)
    requires CursorInRange(s) && s.focused && !s.isCustomMode && ActionOf(key) == Select
    ensures |s.options| > 0 ==>
      Step(s, KeyMsg(key, edited)) == (s.(focused := false), Some(RepoSelected(s.options[s.cursor].value, false)))
    ensures |s.options| == 0 ==> Step(s, KeyMsg(key, edited)) == (s, None)
  {
  }

  /** In list mode, Cancel closes the picker with a cancellation, and the
      custom key enters custom mode and stays open without a message. */
  lemma ListCancelAndCustom(s: PickerState, key: string, edited: string)
    requires CursorInRange(s) && s.focused && !s.isCustomMode
    ensures ActionOf(key) == Cancel ==> Step(s, KeyMsg(key, edited)) == (s.(focused := false), Some(RepoCancelled))
    ensures ActionOf(key) == Custom ==>
      var (t, out) := Step(s, KeyMsg(key, edited)); t.isCustomMode && t.focused && out.None?
  {
  }

  /** In custom mode, Cancel returns to list mode with an empty input and
      stays open; Select emits the trimmed input as a custom choice and
      closes the picker, unless the trimmed input is empty, when nothing
      changes; every other key only edits the input. */
  lemma CustomModeKeys(s: PickerState, key: string, edited: string)
    requires CursorInRange(s) && s.focused && s.isCustomMode
    ensures ActionOf(key) == Cancel ==>
      Step(s, KeyMsg(key, edited)) == (s.(isCustomMode := false, customInput := ""), None)
    ensures ActionOf(key) == Select && TrimSpace(s.customInput) != "" ==>
      var (t, out) := Step(s, KeyMsg(key, edited));
      && out == Some(RepoSelected(TrimSpace(s.customInput), true))
      && !t.focused && !t.isCustomMode && t.customInput == s.customInput
    ensures ActionOf(key) == Select && TrimSpace(s.customInput) == "" ==> Step(s, KeyMsg(key, edited)) == (s, None)
    ensures ActionOf(key) != Cancel && ActionOf(key) != Select ==>
      Step(s, KeyMsg(key, edited)) == (s.(customInput := edited), None)
  {
  }

  /** A custom choice is never empty and never starts or ends with
      whitespace. */
  lemma CustomChoiceTrimmed(s: PickerState, msg: Msg)
    requires CursorInRange(s)
    ensures var out := Step(s, msg).1;
      out.Some? && out.value.RepoSelected? && out.value.isCustom ==>
        var v := out.value.value; v != [] && !IsSpace(v[0]) && !IsSpace(v[|v| - 1])
  {
  }

  /** A list choice is always the value of one of the options. */
  lemma ListChoiceIsOption(s: PickerState, msg: Msg)
    requires CursorInRange(s)
    ensures var out := Step(s, msg).1;
      out.Some? && out.value.RepoSelected? && !out.value.isCustom ==>
        exists i :: 0 <= i < |s.options| && s.options[i].value == out.value.value
  {
    var out := Step(s, msg).1;
    if out.Some? && out.value.RepoSelected? && !out.value.isCustom {
      assert s.options[s.cursor].value == out.value.value;
    }
  }

  /** Entering custom mode and cancelling it leaves the picker as it was,
      except that the custom input is emptied. */
  lemma CustomThenCancel(s: PickerState)
    requires CursorInRange(s) && s.focused && !s.isCustomMode
    ensures Step(Step(s, KeyMsg("c", "")).0, KeyMsg("esc", "")) == (s.(customInput := ""), None)
  {
    assert ActionOf("c") == Custom;
    assert ActionOf("esc") == Cancel;
  }
}
