/** The App component (src/App.tsx): it owns the store, the edit-dialog
    controller and the delete-request controller, and wires the forms'
    callbacks to the store (`onAdd={addTodo}`, `onSave={updateTodo}`,
    `onClose={closeModal}`, `onConfirm={handleConfirmDelete}`). */
module App {
  import opened Optional
  import opened Text
  import opened Todos
  import opened Store
  import opened Modal
  import opened Forms

  class App {
    const store: TodoStore
    const modal: ModalState
    const form: TodoForm
    const editor: EditModal
    /** The item waiting for delete confirmation, if any. */
    var todoToDelete: Option<TodoRef>

    constructor (stored: seq<Todo>)
      ensures fresh(store) && fresh(modal) && fresh(form) && fresh(editor)
      ensures store.todos == stored && store.filter == All
      ensures !modal.isOpen && modal.editingTodo == None
      ensures form.text == "" && editor.text == ""
      ensures todoToDelete == None
    {
      store := new TodoStore(stored);
      modal := new ModalState();
      form := new TodoForm();
      editor := new EditModal();
      todoToDelete := None;
    }

    /** The confirm dialog's `isOpen={Boolean(todoToDelete)}`. */
    predicate ConfirmOpen()
      reads this
    {
      todoToDelete.Some?
    }

    /** handleDeleteRequest: remember the item and so open the confirm dialog;
        the list is not touched yet. */
    method HandleDeleteRequest(todo: TodoRef)
      modifies this
      ensures todoToDelete == Some(todo) && ConfirmOpen()
      ensures store.todos == old(store.todos)
    {
      todoToDelete := Some(todo);
    }

    /** handleConfirmDelete: with a pending task, delete its id once and clear
        the request; with none, do nothing. */
    method HandleConfirmDelete()
      modifies this, store
      ensures old(todoToDelete).Some? ==> store.todos == Delete(old(store.todos), old(todoToDelete).value.id)
      ensures old(todoToDelete).None? ==> store.todos == old(store.todos)
      ensures store.filter == old(store.filter)
      ensures todoToDelete == None && !ConfirmOpen()
    {
      if todoToDelete.Some? {
        store.DeleteTodo(todoToDelete.value.id);
        todoToDelete := None;
      }
    }

    /** handleCancelDelete: clear the request, leave the list alone. */
    method HandleCancelDelete()
      modifies this
      ensures todoToDelete == None && !ConfirmOpen()
      ensures store.todos == old(store.todos)
    {
      todoToDelete := None;
    }

    /** `onEdit={openModal}` followed by the dialog's effect: the dialog opens on
        the item and its buffer starts from the item's text. */
    method HandleEditRequest(todo: TodoRef)
      modifies modal, editor
      ensures modal.isOpen && modal.editingTodo == Some(todo) && modal.Valid()
      ensures editor.text == todo.text
      ensures store.todos == old(store.todos)
    {
      modal.OpenModal(todo);
      editor.SyncWithProps(modal.isOpen, modal.editingTodo);
    }

    /** Submitting the new-task form, whose `onAdd` is the store's addTodo: blank
        text leaves the list and the input as they were; other text adds one
        task holding the trimmed text and clears the input. */
    method SubmitNewTask(id: string, now: Timestamp)
      modifies form, store
      ensures IsBlank(old(form.text)) ==> store.todos == old(store.todos) && form.text == old(form.text)
      ensures !IsBlank(old(form.text)) ==>
        store.todos == Add(old(store.todos), id, Trim(old(form.text)), now) && form.text == ""
      ensures store.filter == old(store.filter)
    {
      var submitted := form.HandleSubmit();
      if submitted.Some? {
        store.AddTodo(submitted.value, id, now);
      }
    }

    /** Submitting the edit dialog, whose `todo` is the modal's editingTodo,
        `onSave` the store's updateTodo and `onClose` closeModal: when the guard
        lets it through, the text is saved and then the dialog closes; otherwise
        nothing changes. */
    method SubmitEdit()
      modifies store, modal
      ensures var request := SaveRequest(old(modal.editingTodo), editor.text);
        if request.Some? then
          && store.todos == Update(old(store.todos), request.value.0, request.value.1)
          && !modal.isOpen && modal.editingTodo == None
        else
          && store.todos == old(store.todos)
          && modal.isOpen == old(modal.isOpen) && modal.editingTodo == old(modal.editingTodo)
      ensures store.filter == old(store.filter)
    {
      var saved, closed := editor.HandleSubmit(modal.editingTodo);
      // the dialog calls onClose right after onSave, and only then
      if saved.Some? {
        store.UpdateTodo(saved.value.0, saved.value.1);
        modal.CloseModal();
      }
    }
  }
}
