/** The edit-dialog controller of the `useModal` hook (src/hooks/useModal.ts):
    whether the dialog is open, and the item it edits. */
module Modal {
  import opened Optional
  import opened Todos

  class ModalState {
    var isOpen: bool
    var editingTodo: Option<TodoRef>

    /** The dialog is open exactly when it has a task to edit. */
    predicate Valid()
      reads this
    {
      isOpen <==> editingTodo.Some?
    }

    /** The hook's initial state: closed, nothing to edit. */
    constructor ()
      ensures !isOpen && editingTodo == None
      ensures Valid()
    {
      isOpen := false;
      editingTodo := None;
    }

    /** openModal: open on `todo`, replacing whatever was being edited before. */
    method OpenModal(todo: TodoRef)
      modifies this
      ensures isOpen && editingTodo == Some(todo)
      ensures Valid()
    {
      editingTodo := Some(todo);
      isOpen := true;
    }

    /** closeModal: closed, nothing to edit. The new state does not depend on the
        old one, so closing twice is closing once. */
    method CloseModal()
      modifies this
      ensures !isOpen && editingTodo == None
      ensures Valid()
    {
      isOpen := false;
      editingTodo := None;
    }
  }
}
