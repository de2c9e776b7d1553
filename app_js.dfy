/** The component of src/App.js, the older copy of src/App.jsx: the same
    handlers, except that a submitted item carries no type marker. Its own
    state (the text of the input field, the text of the edit field, the
    selected filter) and the to-do list, which lives in the sync hook
    (`const [todoList, setTodoList] = useFlureeHook([])`). Every handler
    computes the new list and hands it to the hook's setter. */
module AppJs {
  import opened Records
  import opened TodoOps
  import Text
  import Lists
  import FlureeHook

  class App {
    var input: string
    var editInput: string
    var status: Status
    const todos: FlureeHook.Store

    constructor ()
      ensures input == "" && editInput == "" && status == All
      ensures fresh(todos) && todos.initialValue == [] && todos.storedValue == [] && todos.sent == []
    {
      input := "";
      editInput := "";
      status := All;
      todos := new FlureeHook.Store([]);
    }

    /** The items shown under the selected filter. */
    function Visible(): (r: seq<Item>)
      reads this, todos
      ensures status == All ==> r == todos.storedValue
      ensures status == Active ==>
        && (forall t :: t in r <==> t in todos.storedValue && !t.checked)
        && (forall t :: multiset(r)[t] == if t.checked then 0 else multiset(todos.storedValue)[t])
        && Lists.IsSubseq(r, todos.storedValue)
      ensures status == Completed ==>
        && (forall t :: t in r <==> t in todos.storedValue && t.checked)
        && (forall t :: multiset(r)[t] == if t.checked then multiset(todos.storedValue)[t] else 0)
        && Lists.IsSubseq(r, todos.storedValue)
    {
      ViewCounts(todos.storedValue);
      CurrentList(todos.storedValue, status)
    }

    /** `handleInput`: the input field's text. */
    method HandleInput(value: string)
      modifies this
      ensures input == value && editInput == old(editInput) && status == old(status)
    {
      input := value;
    }

    /** `handleEditInput`: the edit field's text. */
    method HandleEditInput(value: string)
      modifies this
      ensures editInput == value && input == old(input) && status == old(status)
    {
      editInput := value;
    }

    /** Choosing the All, Active or Completed filter. */
    method SetStatus(s: Status)
      modifies this
      ensures status == s && input == old(input) && editInput == old(editInput)
    {
      status := s;
    }

    /** `handleInputSubmit`: a blank input changes nothing and sends nothing;
      otherwise a new unchecked item holding the trimmed text, with no
      `rdf:type` key, is put in front, the hook transacts the whole new list and
      the input field is cleared. */
    method HandleInputSubmit(newId: string)
      modifies this, todos
      ensures editInput == old(editInput) && status == old(status)
      ensures Text.Blank(old(input)) ==>
        input == old(input) && todos.storedValue == old(todos.storedValue) && todos.sent == old(todos.sent)
      ensures !Text.Blank(old(input)) ==>
        && input == ""
        && todos.storedValue == Submit(old(todos.storedValue), old(input), newId, None)
        && todos.sent == old(todos.sent) + [PostTransact(LedgerName, FlureeHook.EncodeAll(todos.storedValue))]
    {
      var todoList := todos.storedValue;
      var value := Text.Trim(input);
      if value != [] {
        var newTodoList := Submit(todoList, input, newId, None);
        SubmitTransacts(todoList, input, newId, None);
        todos.SetValue(newTodoList);
        input := "";
      }
    }

    /** `handleDelete`: the items holding `id` are dropped. When `id` is
      present the hook removes it (once, when ids are unique); when it is
      absent the list stays as it was and the hook transacts it whole. */
    method HandleDelete(id: string)
      modifies todos
      ensures todos.storedValue == DeleteItem(old(todos.storedValue), id)
      ensures todos.sent == old(todos.sent) + [FlureeHook.WriteRequest(old(todos.storedValue), todos.storedValue)]
      ensures HasId(old(todos.storedValue), id) && UniqueIds(old(todos.storedValue)) ==>
        todos.sent == old(todos.sent) + [PostDelete(LedgerName, [Some(id)])]
      ensures !HasId(old(todos.storedValue), id) ==>
        todos.storedValue == old(todos.storedValue)
        && todos.sent == old(todos.sent) + [PostTransact(LedgerName, FlureeHook.EncodeAll(todos.storedValue))]
    {
      var todoList := todos.storedValue;
      var newTodoList := DeleteItem(todoList, id);
      if HasId(todoList, id) && UniqueIds(todoList) {
        DeleteUniqueRemovesOnce(todoList, id);
      }
      if !HasId(todoList, id) {
        DeleteAbsentTransacts(todoList, id);
      }
      todos.SetValue(newTodoList);
    }

    /** `handleCheck`: the first item holding `id` has its `checked` flipped,
      every other item and the length stay as they were, and the hook
      transacts the whole list. `id` must be present: `findIndex` would give
      -1 and the assignment through it would throw. */
    method HandleCheck(id: string)
      requires HasId(todos.storedValue, id)
      modifies todos
      ensures var i := FindIndex(old(todos.storedValue), id);
        && |todos.storedValue| == |old(todos.storedValue)|
        && todos.storedValue[i] == old(todos.storedValue)[i].(checked := !old(todos.storedValue)[i].checked)
        && forall j | 0 <= j < |todos.storedValue| && j != i :: todos.storedValue[j] == old(todos.storedValue)[j]
      ensures todos.sent == old(todos.sent) + [PostTransact(LedgerName, FlureeHook.EncodeAll(todos.storedValue))]
    {
      var todoList := todos.storedValue;
      var index := FindIndex(todoList, id);
      var newTodoList := todoList;
      newTodoList := newTodoList[index := newTodoList[index].(checked := !newTodoList[index].checked)];
      ToggleTransacts(todoList, index);
      todos.SetValue(newTodoList);
    }

    /** `handleDoubleClick`: the items holding `id` enter edit mode and all
      others leave it; the edit field takes the content of the last item
      holding `id`; the hook transacts the whole list. */
    method HandleDoubleClick(id: string)
      modifies this, todos
      ensures input == old(input) && status == old(status)
      ensures editInput == EditInputAfterDoubleClick(old(todos.storedValue), id, old(editInput))
      ensures todos.storedValue == EnterEditMode(old(todos.storedValue), id)
      ensures todos.sent == old(todos.sent) + [PostTransact(LedgerName, FlureeHook.EncodeAll(todos.storedValue))]
    {
      var todoList := todos.storedValue;
      editInput := EditInputAfterDoubleClick(todoList, id, editInput);
      var newTodoList := EnterEditMode(todoList, id);
      SameIdsTransact(todoList, newTodoList);
      todos.SetValue(newTodoList);
    }

    /** `handleEditItemBlur`: the items holding `id` take the edit field's
      text and leave edit mode, the others are unchanged; the hook transacts
      the whole list. */
    method HandleEditItemBlur(id: string)
      modifies todos
      ensures todos.storedValue == LeaveEditMode(old(todos.storedValue), id, editInput)
      ensures todos.sent == old(todos.sent) + [PostTransact(LedgerName, FlureeHook.EncodeAll(todos.storedValue))]
    {
      var todoList := todos.storedValue;
      var newTodoList := LeaveEditMode(todoList, id, editInput);
      SameIdsTransact(todoList, newTodoList);
      todos.SetValue(newTodoList);
    }

    /** `handleCheckAll`: every item's `checked` becomes the negation of
      "non-empty and all checked"; the hook transacts the whole list. */
    method HandleCheckAll()
      modifies todos
      ensures todos.storedValue == CheckAll(old(todos.storedValue))
      ensures todos.sent == old(todos.sent) + [PostTransact(LedgerName, FlureeHook.EncodeAll(todos.storedValue))]
    {
      var todoList := todos.storedValue;
      var newTodoList := CheckAll(todoList);
      SameIdsTransact(todoList, newTodoList);
      todos.SetValue(newTodoList);
    }

    /** `handleClearCompleted`: only the unchecked items stay, in order. The
      hook deletes the checked ids when there are any, and otherwise
      transacts the unchanged list. */
    method HandleClearCompleted()
      modifies todos
      ensures todos.storedValue == ClearCompleted(old(todos.storedValue))
      ensures todos.sent == old(todos.sent) + [FlureeHook.WriteRequest(old(todos.storedValue), todos.storedValue)]
      ensures (forall t | t in old(todos.storedValue) :: !t.checked) ==>
        todos.storedValue == old(todos.storedValue)
        && todos.sent == old(todos.sent) + [PostTransact(LedgerName, FlureeHook.EncodeAll(todos.storedValue))]
    {
      var todoList := todos.storedValue;
      var newTodoList := ClearCompleted(todoList);
      if forall t | t in todoList :: !t.checked {
        ClearNothingTransacts(todoList);
      }
      todos.SetValue(newTodoList);
    }
  }
}
