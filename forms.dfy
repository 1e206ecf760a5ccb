/** The two text forms: the new-task form (src/components/TodoForm.tsx) and the
    edit dialog (src/components/EditModal.tsx). They are the only place where
    text is trimmed and blank text refused; the store takes text as given.
    Their callbacks (`onAdd`, `onSave`, `onClose`) are modelled by what the
    submit handler returns: the arguments of each call it makes, or None. */
module Forms {
  import opened Optional
  import opened Text
  import opened Todos

  // --------------------------------------------------------------- TodoForm

  /** The guard of TodoForm's handleSubmit: `onAdd` is called, with the trimmed
      text, exactly when the text is not blank. What it receives is never empty,
      and has no white space at either end. */
  function AddRequest(text: string): (r: Option<string>)
    ensures r.Some? <==> !IsBlank(text)
    ensures r.Some? ==> r.value == Trim(text)
    ensures r.Some? ==> r.value != [] && !IsWhitespace(r.value[0]) && !IsWhitespace(r.value[|r.value| - 1])
  {
    var trimmed := Trim(text);
    if trimmed != "" then Some(trimmed) else None
  }

  /** What `onAdd` receives is already trimmed: trimming it again changes nothing. */
  lemma AddRequestIsTrimmed(text: string)
    requires AddRequest(text).Some?
    ensures Trim(AddRequest(text).value) == AddRequest(text).value
  {
    TrimIdempotent(text);
  }

  /** A blank submission never reaches `onAdd`, so it never adds a task. */
  lemma BlankSubmissionAddsNothing(text: string)
    requires IsBlank(text)
    ensures AddRequest(text) == None
  {
  }

  class TodoForm {
    /** The controlled input's value. */
    var text: string

    constructor ()
      ensures text == ""
    {
      text := "";
    }

    /** The input's onChange: the buffer takes what was typed. */
    method Change(value: string)
      modifies this
      ensures text == value
    {
      text := value;
    }

    /** handleSubmit: `submitted` is the argument `onAdd` is called with (None
        when it is not called); the buffer is cleared only after a call. */
    method HandleSubmit() returns (submitted: Option<string>)
      modifies this
      ensures submitted == AddRequest(old(text))
      ensures text == if submitted.Some? then "" else old(text)
    {
      submitted := AddRequest(text);
      if submitted.Some? {
        text := "";
      }
    }
  }

  // -------------------------------------------------------------- EditModal

  /** The guard of EditModal's handleSubmit: `onSave` is called exactly when
      there is a task and the text is not blank, and receives the item's id and
      the trimmed, non-empty text. */
  function SaveRequest(todo: Option<TodoRef>, text: string): (r: Option<(string, string)>)
    ensures r.Some? <==> todo.Some? && !IsBlank(text)
    ensures r.Some? ==> r.value.0 == todo.value.id && r.value.1 == Trim(text) && r.value.1 != []
  {
    if todo.Some? && Trim(text) != "" then Some((todo.value.id, Trim(text))) else None
  }

  /** The save button's `disabled={!text.trim()}`, negated: enabled exactly when
      the text is not blank. */
  function SubmitEnabled(text: string): (enabled: bool)
    ensures enabled <==> !IsBlank(text)
  {
    Trim(text) != ""
  }

  /** With a task in the dialog, the button is enabled exactly when submitting saves. */
  lemma SubmitEnabledMatchesGuard(todo: Option<TodoRef>, text: string)
    requires todo.Some?
    ensures SubmitEnabled(text) <==> SaveRequest(todo, text).Some?
  {
  }

  class EditModal {
    /** The controlled input's value. */
    var text: string

    constructor ()
      ensures text == ""
    {
      text := "";
    }

    /** The input's onChange: the buffer takes what was typed. */
    method Change(value: string)
      modifies this
      ensures text == value
    {
      text := value;
    }

    /** The effect on `[isOpen, todo]`: when the dialog is open on a task, the
        buffer starts from that task's text; otherwise it keeps its value. */
    method SyncWithProps(isOpen: bool, todo: Option<TodoRef>)
      modifies this
      ensures text == if isOpen && todo.Some? then todo.value.text else old(text)
    {
      if isOpen && todo.Some? {
        text := todo.value.text;
      }
    }

    /** handleSubmit: `onSave` receives `saved` (None when not called), and
        `onClose` is called, after it, exactly when `onSave` was. */
    method HandleSubmit(todo: Option<TodoRef>) returns (saved: Option<(string, string)>, closed: bool)
      ensures saved == SaveRequest(todo, text)
      ensures closed <==> saved.Some?
    {
      saved := SaveRequest(todo, text);
      closed := saved.Some?;
    }
  }
}
