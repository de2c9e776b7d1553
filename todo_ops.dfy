/** The list edits the two app components perform before handing the new
    list to the sync hook's setter, the status filter, and which remote
    request each edit makes the hook issue. */
module TodoOps {
  import opened Records
  import opened Lists
  import Text
  import FlureeHook

  /** The three views of the footer's filter. */
  datatype Status = All | Active | Completed

  predicate IsDone(t: Item) { t.checked }
  predicate IsOpen(t: Item) { !t.checked }

  // ---------------------------------------------------------------------
  // handleInputSubmit
  // ---------------------------------------------------------------------

  /** The list after submitting `input`: unchanged when the input is blank,
      otherwise a fresh unchecked item holding the trimmed text, in front of
      the old list. `typeTag` is what the component puts under `rdf:type`. */
  function Submit(list: seq<Item>, input: string, newId: string, typeTag: Option<seq<string>>): (r: seq<Item>)
    ensures Text.Blank(input) ==> r == list
    ensures !Text.Blank(input) ==>
      && |r| == |list| + 1
      && r[1..] == list
      && r[0].id == newId && r[0].typeTag == typeTag
      && !r[0].checked && !r[0].editMode
      && r[0].content == Text.Trim(input) && r[0].content != []
  {
    var value := Text.Trim(input);
    if value != [] then [Item(newId, typeTag, false, value, false)] + list else list
  }

  /** A fresh id keeps the ids unique. */
  lemma SubmitKeepsIdsUnique(list: seq<Item>, input: string, newId: string, typeTag: Option<seq<string>>)
    requires UniqueIds(list) && !HasId(list, newId)
    ensures UniqueIds(Submit(list, input, newId, typeTag))
  {
    var r := Submit(list, input, newId, typeTag);
    if !Text.Blank(input) {
      forall i, j | 0 <= i < j < |r| ensures r[i].id != r[j].id {
        if i == 0 {
          assert r[j] == list[j - 1];
        } else {
          assert r[i] == list[i - 1] && r[j] == list[j - 1];
        }
      }
    }
  }

  /** A non-blank submit keeps every stored id, so the hook transacts the
      whole new list, new item first. */
  lemma SubmitTransacts(list: seq<Item>, input: string, newId: string, typeTag: Option<seq<string>>)
    requires !Text.Blank(input)
    ensures var r := Submit(list, input, newId, typeTag);
      FlureeHook.WriteRequest(list, r) == PostTransact(LedgerName, FlureeHook.EncodeAll(r))
  {
    var r := Submit(list, input, newId, typeTag);
    forall id | id in Ids(list) ensures id in Ids(r) {
      var i :| 0 <= i < |list| && list[i].id == id;
      assert r[i + 1] == list[i];
    }
    FlureeHook.KeptIdsTransact(list, r);
  }

  // ---------------------------------------------------------------------
  // handleDelete
  // ---------------------------------------------------------------------

  /** `todoList.filter(t => id !== t['@id'])`. */
  function DeleteItem(list: seq<Item>, id: string): (r: seq<Item>)
    ensures forall t :: t in r <==> t in list && t.id != id
    ensures IsSubseq(r, list)
    ensures !HasId(r, id)
  {
    Filter(list, (t: Item) => id != t.id)
  }

  /** The delete keeps every other item as often as it occurs. */
  lemma DeleteItemCount(list: seq<Item>, id: string)
    ensures forall t :: multiset(DeleteItem(list, id))[t] == if t.id == id then 0 else multiset(list)[t]
  {
    FilterCount(list, (t: Item) => id != t.id);
  }

  /** Filtering by a predicate that only one position satisfies leaves that one element. */
  lemma {:induction false} FilterSingle(xs: seq<Item>, p: Item -> bool, k: nat)
    requires k < |xs| && p(xs[k])
    requires forall j | 0 <= j < |xs| && j != k :: !p(xs[j])
    ensures Filter(xs, p) == [xs[k]]
  {
    if k == 0 {
      assert forall j | 0 <= j < |xs[1..]| :: !p(xs[1..][j]);
      assert forall t | t in xs[1..] :: !p(t);
      assert Filter(xs[1..], p) == [];
    } else {
      FilterSingle(xs[1..], p, k - 1);
    }
  }

  /** Every item whose id differs from `id` survives the delete. */
  lemma DeleteKeepsOthers(list: seq<Item>, id: string)
    ensures forall t | t in list && t.id != id :: HasId(DeleteItem(list, id), t.id)
  {
    var d := DeleteItem(list, id);
    forall t | t in list && t.id != id ensures HasId(d, t.id) {
      assert t in d;
      var k :| 0 <= k < |d| && d[k] == t;
    }
  }

  /** Deleting an id that is in the list makes the hook remove that id and
      nothing else. */
  lemma DeletePresentRemoves(list: seq<Item>, id: string)
    requires HasId(list, id)
    ensures var r := FlureeHook.WriteRequest(list, DeleteItem(list, id));
      r.PostDelete? && |r.subjects| > 0 && forall s | s in r.subjects :: s == Some(id)
  {
    var d := DeleteItem(list, id);
    DeleteKeepsOthers(list, id);
    var k :| 0 <= k < |list| && list[k].id == id;
    assert list[k].id in Ids(list) && list[k].id !in Ids(d);
    FlureeHook.DeleteWinsOverUpsert(list, d);
    var r := FlureeHook.WriteRequest(list, d);
    forall s | s in r.subjects ensures s == Some(id) {
      var j :| 0 <= j < |list| && list[j].id == s.value;
      assert list[j] in list;
    }
  }

  /** With unique ids, deleting the id at position `k` keeps the id of every
      other position. */
  lemma DeleteUniqueKeepsRest(list: seq<Item>, k: nat)
    requires k < |list| && UniqueIds(list)
    ensures forall j | 0 <= j < |list| && j != k :: HasId(DeleteItem(list, list[k].id), list[j].id)
  {
    var d := DeleteItem(list, list[k].id);
    forall j | 0 <= j < |list| && j != k ensures HasId(d, list[j].id) {
      if j < k {
        assert list[j].id != list[k].id;
      } else {
        assert list[k].id != list[j].id;
      }
      assert list[j] in d;
      var m :| 0 <= m < |d| && d[m] == list[j];
    }
  }

  /** With unique ids, the delete request names `id` exactly once. */
  lemma DeleteUniqueRemovesOnce(list: seq<Item>, id: string)
    requires HasId(list, id) && UniqueIds(list)
    ensures FlureeHook.WriteRequest(list, DeleteItem(list, id)) == PostDelete(LedgerName, [Some(id)])
  {
    var d := DeleteItem(list, id);
    DeleteKeepsOthers(list, id);
    var k :| 0 <= k < |list| && list[k].id == id;
    assert !HasId(d, list[k].id);
    DeleteUniqueKeepsRest(list, k);
    FilterSingle(list, (v: Item) => !HasId(d, v.id), k);
    assert FlureeHook.RemovedItems(list, d) == [list[k]];
  }

  /** Deleting an absent id leaves the list as it was, and the hook then
      transacts it whole. */
  lemma DeleteAbsentTransacts(list: seq<Item>, id: string)
    requires !HasId(list, id)
    ensures DeleteItem(list, id) == list
    ensures FlureeHook.WriteRequest(list, DeleteItem(list, id)) == PostTransact(LedgerName, FlureeHook.EncodeAll(list))
  {
    assert forall i | 0 <= i < |list| :: id != list[i].id;
    FilterKeepsAll(list, (t: Item) => id != t.id);
    FlureeHook.KeptIdsTransact(list, list);
  }

  /** A filter whose predicate holds everywhere keeps the list as it is. */
  lemma {:induction false} FilterKeepsAll(xs: seq<Item>, p: Item -> bool)
    requires forall i | 0 <= i < |xs| :: p(xs[i])
    ensures Filter(xs, p) == xs
  {
    if xs != [] {
      FilterKeepsAll(xs[1..], p);
    }
  }

  // ---------------------------------------------------------------------
  // handleCheck
  // ---------------------------------------------------------------------

  /** `todoList.findIndex(t => t['@id'] === id)`: the first position holding
      `id`, or -1 when there is none. */
  function FindIndex(list: seq<Item>, id: string): (i: int)
    ensures -1 <= i < |list|
    ensures i == -1 <==> !HasId(list, id)
    ensures 0 <= i ==> list[i].id == id && forall j | 0 <= j < i :: list[j].id != id
  {
    if list == [] then -1
    else if list[0].id == id then 0
    else
      var k := FindIndex(list[1..], id);
      assert forall j | 1 <= j < |list| :: list[j] == list[1..][j - 1];
      if k == -1 then -1 else k + 1
  }

  /** A write that changes no id, only fields, transacts the whole new list. */
  lemma SameIdsTransact(list: seq<Item>, r: seq<Item>)
    requires |r| == |list|
    requires forall i | 0 <= i < |list| :: r[i].id == list[i].id
    ensures FlureeHook.WriteRequest(list, r) == PostTransact(LedgerName, FlureeHook.EncodeAll(r))
  {
    forall id | id in Ids(list) ensures id in Ids(r) {
      var i :| 0 <= i < |list| && list[i].id == id;
      assert r[i].id == id;
    }
    FlureeHook.KeptIdsTransact(list, r);
  }

  /** Flipping `checked` at one position keeps every id, so the hook
      transacts the whole list. */
  lemma ToggleTransacts(list: seq<Item>, i: nat)
    requires i < |list|
    ensures var r := list[i := list[i].(checked := !list[i].checked)];
      FlureeHook.WriteRequest(list, r) == PostTransact(LedgerName, FlureeHook.EncodeAll(r))
  {
    SameIdsTransact(list, list[i := list[i].(checked := !list[i].checked)]);
  }

  // ---------------------------------------------------------------------
  // handleCheckAll
  // ---------------------------------------------------------------------

  /** `todoList.length && todoList.every(t => t.checked)`. */
  predicate AllChecked(list: seq<Item>) {
    |list| > 0 && forall i | 0 <= i < |list| :: list[i].checked
  }

  /** Every item gets `checked` set to the negation of "non-empty and all
      checked"; nothing else changes. */
  function CheckAll(list: seq<Item>): (r: seq<Item>)
    ensures |r| == |list|
    ensures forall i | 0 <= i < |list| :: r[i] == list[i].(checked := !AllChecked(list))
  {
    var allChecked := AllChecked(list);
    Map(list, (t: Item) => t.(checked := !allChecked))
  }

  /** On a non-empty list toggle-all really toggles "all checked", and
      toggling twice leaves every item checked exactly when all were checked
      to begin with. */
  lemma CheckAllToggles(list: seq<Item>)
    requires |list| > 0
    ensures AllChecked(CheckAll(list)) <==> !AllChecked(list)
    ensures forall i | 0 <= i < |list| :: CheckAll(CheckAll(list))[i] == list[i].(checked := AllChecked(list))
  {
    var c := CheckAll(list);
    assert c[0].checked == !AllChecked(list);
  }

  // ---------------------------------------------------------------------
  // handleClearCompleted and the status filter
  // ---------------------------------------------------------------------

  /** `todoList.filter(t => !t.checked)`. */
  function ClearCompleted(list: seq<Item>): (r: seq<Item>)
    ensures forall t :: t in r <==> t in list && !t.checked
    ensures IsSubseq(r, list)
  {
    Filter(list, IsOpen)
  }

  /** Clearing completed items twice is clearing them once. */
  lemma ClearCompletedIdempotent(list: seq<Item>)
    ensures ClearCompleted(ClearCompleted(list)) == ClearCompleted(list)
  {
    FilterIdempotent(list, IsOpen);
  }

  /** Ids that disappear when clearing belong to checked items; with unique
      ids, every checked item's id disappears. */
  lemma ClearedIds(list: seq<Item>)
    ensures forall id | HasId(list, id) && !HasId(ClearCompleted(list), id) ::
      exists t :: t in list && t.checked && t.id == id
    ensures UniqueIds(list) ==> forall t | t in list && t.checked :: !HasId(ClearCompleted(list), t.id)
  {
    var c := ClearCompleted(list);
    forall t | t in list && !t.checked ensures HasId(c, t.id) {
      assert t in c;
      var j :| 0 <= j < |c| && c[j] == t;
    }
    forall id | HasId(list, id) && !HasId(c, id) ensures exists t :: t in list && t.checked && t.id == id {
      var m :| 0 <= m < |list| && list[m].id == id;
      assert list[m] in list;
    }
    if UniqueIds(list) {
      forall t | t in list && t.checked ensures !HasId(c, t.id) {
        var k :| 0 <= k < |list| && list[k] == t;
        forall j | 0 <= j < |c| ensures c[j].id != t.id {
          assert c[j] in list;
          var m :| 0 <= m < |list| && list[m] == c[j];
          assert !list[m].checked;
        }
      }
    }
  }

  /** When some item is checked, clearing makes the hook delete, and every
      id it deletes belongs to a checked item (ids being unique). */
  lemma ClearCompletedDeletesChecked(list: seq<Item>)
    requires UniqueIds(list)
    requires exists t :: t in list && t.checked
    ensures var r := FlureeHook.WriteRequest(list, ClearCompleted(list));
      r.PostDelete? && forall s | s in r.subjects ::
        s.Some? && exists t :: t in list && t.checked && t.id == s.value
  {
    var c := ClearCompleted(list);
    ClearedIds(list);
    var t :| t in list && t.checked;
    assert t.id in Ids(list) && t.id !in Ids(c);
    FlureeHook.DeleteWinsOverUpsert(list, c);
  }

  /** When nothing is checked, clearing changes nothing and the hook
      transacts the list whole. */
  lemma ClearNothingTransacts(list: seq<Item>)
    requires forall t | t in list :: !t.checked
    ensures ClearCompleted(list) == list
    ensures FlureeHook.WriteRequest(list, ClearCompleted(list)) == PostTransact(LedgerName, FlureeHook.EncodeAll(list))
  {
    assert forall i | 0 <= i < |list| :: IsOpen(list[i]);
    FilterKeepsAll(list, IsOpen);
    FlureeHook.KeptIdsTransact(list, list);
  }

  /** The Active view: the unchecked items, in order. */
  function ActiveItems(list: seq<Item>): (r: seq<Item>)
    ensures forall t :: t in r <==> t in list && !t.checked
    ensures IsSubseq(r, list)
  {
    Filter(list, IsOpen)
  }

  /** The Completed view: the checked items, in order. */
  function CompletedItems(list: seq<Item>): (r: seq<Item>)
    ensures forall t :: t in r <==> t in list && t.checked
    ensures IsSubseq(r, list)
  {
    Filter(list, IsDone)
  }

  /** `currentList`: the list shown for the selected status. */
  function CurrentList(list: seq<Item>, status: Status): (r: seq<Item>)
    ensures status == All ==> r == list
    ensures status == Active ==> r == ActiveItems(list)
    ensures status == Completed ==> r == CompletedItems(list)
  {
    match status
    case All => list
    case Active => ActiveItems(list)
    case Completed => CompletedItems(list)
  }

  /** Each view keeps its items as often as they occur in the list. */
  lemma ViewCounts(list: seq<Item>)
    ensures forall t :: multiset(ActiveItems(list))[t] == if t.checked then 0 else multiset(list)[t]
    ensures forall t :: multiset(CompletedItems(list))[t] == if t.checked then multiset(list)[t] else 0
  {
    FilterCount(list, IsOpen);
    FilterCount(list, IsDone);
  }

  /** The Active and Completed views split the All view: every item is in
      exactly one of them, with its multiplicity, and clearing completed
      items leaves exactly the Active view. */
  lemma ViewsPartition(list: seq<Item>)
    ensures |ActiveItems(list)| + |CompletedItems(list)| == |CurrentList(list, All)|
    ensures multiset(ActiveItems(list)) + multiset(CompletedItems(list)) == multiset(list)
    ensures ClearCompleted(list) == CurrentList(list, Active)
  {
    FilterPartition(list, IsOpen, IsDone);
  }

  // ---------------------------------------------------------------------
  // handleDoubleClick and handleEditItemBlur
  // ---------------------------------------------------------------------

  /** The items holding `id` enter edit mode, every other item leaves it. */
  function EnterEditMode(list: seq<Item>, id: string): (r: seq<Item>)
    ensures |r| == |list|
    ensures forall i | 0 <= i < |list| :: r[i] == list[i].(editMode := list[i].id == id)
  {
    Map(list, (t: Item) => t.(editMode := t.id == id))
  }

  /** The edit field after a double click: `setEditInput(t.content)` runs for
      each item holding `id`, so the last one's content wins; it keeps its
      old value when no item holds `id`. */
  function EditInputAfterDoubleClick(list: seq<Item>, id: string, editInput: string): (s: string)
    ensures !HasId(list, id) ==> s == editInput
    ensures HasId(list, id) ==> exists i | 0 <= i < |list| ::
      list[i].id == id && s == list[i].content && forall j | i < j < |list| :: list[j].id != id
  {
    if list == [] then editInput
    else
      var last := list[|list| - 1];
      var front := list[..|list| - 1];
      assert forall j | 0 <= j < |front| :: front[j] == list[j];
      if last.id == id then last.content else EditInputAfterDoubleClick(front, id, editInput)
  }

  /** The items holding `id` take the edit field's text and leave edit mode;
      every other item is unchanged. */
  function LeaveEditMode(list: seq<Item>, id: string, editInput: string): (r: seq<Item>)
    ensures |r| == |list|
    ensures forall i | 0 <= i < |list| ::
      r[i] == if list[i].id == id then list[i].(content := editInput, editMode := false) else list[i]
  {
    Map(list, (t: Item) => if t.id == id then t.(content := editInput, editMode := false) else t)
  }

  /** After a double click exactly the items holding `id` are in edit mode,
      and leaving edit mode with the unchanged field hands back the same
      items out of edit mode, ids and order intact. */
  lemma EditRoundTrip(list: seq<Item>, id: string)
    requires UniqueIds(list)
    ensures var e := EnterEditMode(list, id);
      && (forall i | 0 <= i < |e| :: e[i].editMode <==> e[i].id == id)
      && LeaveEditMode(e, id, EditInputAfterDoubleClick(list, id, "")) ==
           Map(list, (t: Item) => t.(editMode := false))
  {
    var e := EnterEditMode(list, id);
    var s := EditInputAfterDoubleClick(list, id, "");
    var l := LeaveEditMode(e, id, s);
    forall i | 0 <= i < |list| ensures l[i] == list[i].(editMode := false) {
      if list[i].id == id {
        var k :| 0 <= k < |list| && list[k].id == id && s == list[k].content
          && forall j | k < j < |list| :: list[j].id != id;
        assert k == i;
      }
    }
  }
}
