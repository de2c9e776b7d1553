/** The sync hook the app uses: it keeps the to-do list in memory, loads it
    from the ledger once, and mirrors every write to the ledger with exactly
    one remote request (a delete when items disappeared, a whole-list transact
    otherwise). The HTTP requests are recorded in a ghost log instead of being
    sent; the ledger's answers are parameters. */
module FlureeHook {
  import opened Records
  import opened Lists
  import Text

  // ---------------------------------------------------------------------
  // Encoding: list item -> ledger record
  // ---------------------------------------------------------------------

  /** The record `transact` writes for one list item. */
  function Encode(d: Item): WireItem {
    WireItem(d.id, [ListItemType], d.content, BoolText(d.checked), BoolText(d.editMode))
  }

  /** `transact`'s `dataArray.map(...)`: one record per item, in order, with the
      item's id and content, the ListItem type marker, and both booleans
      rendered as "true"/"false". */
  function EncodeAll(xs: seq<Item>): (r: seq<WireItem>)
    ensures |r| == |xs|
    ensures forall i | 0 <= i < |xs| ::
      && r[i].id == xs[i].id
      && r[i].content == xs[i].content
      && r[i].types == [ListItemType]
      && (r[i].checked == "true" <==> xs[i].checked)
      && (r[i].editMode == "true" <==> xs[i].editMode)
      && r[i].checked in {"true", "false"}
      && r[i].editMode in {"true", "false"}
  {
    Map(xs, Encode)
  }

  /** `createLedger`'s map over the records it is handed: the type marker is
      set again, and `toString()` of an already-string field is that string. */
  function Reencode(d: WireItem): WireItem {
    WireItem(d.id, [ListItemType], d.content, d.checked, d.editMode)
  }

  /** The `txn` array `createLedger(dataArray)` posts: the seed message when
      called without data (an empty array is truthy, so it still takes the
      data branch), the re-encoded records otherwise. */
  function CreateTxn(dataArray: Option<seq<WireItem>>): (txn: seq<TxnEntry>)
    ensures dataArray.None? ==> txn == [Message(NewLedgerMessage)]
    ensures dataArray.Some? ==> |txn| == |dataArray.value| && forall i | 0 <= i < |txn| ::
      && txn[i].Record?
      && txn[i].item.id == dataArray.value[i].id
      && txn[i].item.content == dataArray.value[i].content
      && txn[i].item.types == [ListItemType]
      && txn[i].item.checked == dataArray.value[i].checked
      && txn[i].item.editMode == dataArray.value[i].editMode
  {
    match dataArray
    case None => [Message(NewLedgerMessage)]
    case Some(records) => seq(|records|, i requires 0 <= i < |records| => Record(Reencode(records[i])))
  }

  /** The recovery path hands `createLedger` the records `transact` already
      encoded; encoding them again changes nothing, so the ledger is created
      with exactly the records the failed transact tried to write. */
  lemma ReseedWithTransactRecords(xs: seq<Item>)
    ensures var g := EncodeAll(xs);
      CreateTxn(Some(g)) == seq(|g|, i requires 0 <= i < |g| => Record(g[i]))
  {
    var g := EncodeAll(xs);
    forall i | 0 <= i < |g| ensures Reencode(g[i]) == g[i] {
      assert g[i] == Encode(xs[i]);
    }
  }

  /** Encoding is idempotent on ledger records. */
  lemma ReencodeIdempotent(d: WireItem)
    ensures Reencode(Reencode(d)) == Reencode(d)
    ensures d.types == [ListItemType] <==> Reencode(d) == d
  {
  }

  // ---------------------------------------------------------------------
  // Decoding: what `flureeQuery` turns into the initial list
  // ---------------------------------------------------------------------

  /** An element of the list `flureeQuery` maps over: a record the query
      returned, or an item of `initialValue` when the query gave no response. */
  datatype Loaded = FromLedger(record: WireItem) | FromInitial(item: Item)

  /** `{...l, editMode: false, checked: l.checked === 'true'}`. Strict equality
      with the string 'true' holds only for a string, so the boolean `checked`
      of an initial item always decodes to false. */
  function Decode(l: Loaded): (x: Item)
    ensures !x.editMode
    ensures x.checked <==> l.FromLedger? && l.record.checked == "true"
  {
    match l
    case FromLedger(w) => Item(w.id, Some(w.types), w.checked == "true", w.content, false)
    case FromInitial(d) => d.(checked := false, editMode := false)
  }

  /** The ledger's answer to the load query. */
  datatype QueryOutcome = Answered(data: seq<WireItem>) | Rejected(err: Failure)

  /** The list `flureeQuery` resolves to: the decoded records when the query
      answered, otherwise `initialValue` passed through the same decoding. */
  function LoadedList(outcome: QueryOutcome, initialValue: seq<Item>): (list: seq<Item>)
    ensures forall i | 0 <= i < |list| :: !list[i].editMode
    ensures outcome.Answered? ==> |list| == |outcome.data| && forall i | 0 <= i < |list| ::
      && list[i].id == outcome.data[i].id
      && list[i].content == outcome.data[i].content
      && list[i].typeTag == Some(outcome.data[i].types)
      && (list[i].checked <==> outcome.data[i].checked == "true")
    ensures outcome.Rejected? ==> |list| == |initialValue| && forall i | 0 <= i < |list| ::
      list[i] == initialValue[i].(checked := false, editMode := false)
  {
    var raw := match outcome
      case Answered(data) => seq(|data|, i requires 0 <= i < |data| => FromLedger(data[i]))
      case Rejected(_) => seq(|initialValue|, i requires 0 <= i < |initialValue| => FromInitial(initialValue[i]));
    Map(raw, Decode)
  }

  /** An item written by `transact` and read back by the load query comes
      back with the same id, content and `checked`, out of edit mode, tagged
      with the ListItem type marker. */
  lemma LoadAfterTransact(xs: seq<Item>, initialValue: seq<Item>)
    ensures var back := LoadedList(Answered(EncodeAll(xs)), initialValue);
      |back| == |xs| && forall i | 0 <= i < |xs| ::
        back[i] == xs[i].(typeTag := Some([ListItemType]), editMode := false)
  {
  }

  /** With no response and an empty initial list, the store loads empty. */
  lemma LoadFallbackEmpty(err: Failure)
    ensures LoadedList(Rejected(err), []) == []
  {
  }

  /** A rejected error that the hooks read as "the ledger does not exist yet". */
  predicate MissingLedger(err: Failure) {
    err.message.StringMessage? && Text.Includes(err.message.text, NoCommitExists)
  }

  /** A message whose text contains "No commit exists" anywhere is recognised;
      a missing message never is, and neither is a non-string one: its
      `includes` call throws, the catch handler stops there, and no ledger is
      created. */
  lemma MissingLedgerMessage(prefix: string, suffix: string)
    ensures MissingLedger(Failure(StringMessage(prefix + NoCommitExists + suffix)))
    ensures !MissingLedger(Failure(NoMessage))
    ensures !MissingLedger(Failure(NonStringMessage))
  {
    var m := prefix + NoCommitExists + suffix;
    assert m[|prefix|..|prefix| + |NoCommitExists|] == NoCommitExists;
    assert Text.OccursAt(m, NoCommitExists, |prefix|);
  }

  // ---------------------------------------------------------------------
  // The write rule of `setValue`
  // ---------------------------------------------------------------------

  /** `storedValue.filter(v => !value.some(x => x['@id'] === v['@id']))`: the
      stored items no item of the new list shares an id with, in stored order. */
  function RemovedItems(stored: seq<Item>, value: seq<Item>): (r: seq<Item>)
    ensures forall v :: v in r <==> v in stored && !HasId(value, v.id)
    ensures IsSubseq(r, stored)
  {
    Filter(stored, (v: Item) => !HasId(value, v.id))
  }

  /** Each removed stored item is removed as often as it occurs in the stored
      list; a kept one not at all. */
  lemma RemovedItemsCount(stored: seq<Item>, value: seq<Item>)
    ensures forall v :: multiset(RemovedItems(stored, value))[v] == if HasId(value, v.id) then 0 else multiset(stored)[v]
  {
    FilterCount(stored, (v: Item) => !HasId(value, v.id));
  }

  function ItemId(d: Item): string { d.id }

  /** `deleteItems.map(d => d['@id'])`. */
  function RemovedIds(stored: seq<Item>, value: seq<Item>): seq<string> {
    Map(RemovedItems(stored, value), ItemId)
  }

  /** How often `remove` should name `id`: once per stored item holding it
      when the new list lacks it, never otherwise. */
  function RemovedCount(stored: seq<Item>, value: seq<Item>, id: string): nat {
    if HasId(value, id) then 0 else multiset(Map(stored, ItemId))[id]
  }

  /** An id missing from the new list is passed to `remove` once per stored
      item that holds it; a kept id not at all. */
  lemma {:induction false} RemovedIdsCount(stored: seq<Item>, value: seq<Item>, id: string)
    ensures multiset(RemovedIds(stored, value))[id] == RemovedCount(stored, value, id)
    decreases |stored|
  {
    if stored != [] {
      RemovedIdsCount(stored[1..], value, id);
      RemovedIdsStep(stored, value);
      MapStep(stored, ItemId);
    }
  }

  /** One step of the removal: the first stored item's id leads the removed
      ids exactly when the new list lacks it. */
  lemma RemovedIdsStep(stored: seq<Item>, value: seq<Item>)
    requires stored != []
    ensures RemovedIds(stored, value)
      == (if HasId(value, stored[0].id) then [] else [stored[0].id]) + RemovedIds(stored[1..], value)
  {
    if HasId(value, stored[0].id) {
      assert RemovedItems(stored, value) == RemovedItems(stored[1..], value);
    } else {
      assert RemovedItems(stored, value) == [stored[0]] + RemovedItems(stored[1..], value);
    }
  }

  /** `RemovedIdsCount` for every id at once. */
  lemma RemovedIdsCounts(stored: seq<Item>, value: seq<Item>)
    ensures forall id :: multiset(RemovedIds(stored, value))[id] == RemovedCount(stored, value, id)
  {
    forall id ensures multiset(RemovedIds(stored, value))[id] == RemovedCount(stored, value, id) {
      RemovedIdsCount(stored, value, id);
    }
  }

  /** The ids passed to `remove` are exactly the ids of stored items that are
      missing from the new list, one per such stored item, listed in the order
      of the stored list. */
  lemma {:induction false} RemovedIdsExact(stored: seq<Item>, value: seq<Item>)
    ensures forall id :: id in RemovedIds(stored, value) <==> HasId(stored, id) && !HasId(value, id)
    ensures forall id :: multiset(RemovedIds(stored, value))[id] == RemovedCount(stored, value, id)
    ensures IsSubseq(RemovedIds(stored, value), Map(stored, ItemId))
  {
    var r := RemovedItems(stored, value);
    SubseqMap(r, stored, ItemId);
    RemovedIdsCounts(stored, value);
    forall id ensures id in RemovedIds(stored, value) <==> HasId(stored, id) && !HasId(value, id) {
      if HasId(stored, id) && !HasId(value, id) {
        var i :| 0 <= i < |stored| && stored[i].id == id;
        assert stored[i] in r;
        var k :| 0 <= k < |r| && r[k] == stored[i];
        assert RemovedIds(stored, value)[k] == id;
      }
    }
  }

  /** Ids as the `values` of a delete request. */
  function Subjects(ids: seq<string>): (r: seq<Option<string>>)
    ensures |r| == |ids| && forall i | 0 <= i < |ids| :: r[i] == Some(ids[i])
  {
    seq(|ids|, i requires 0 <= i < |ids| => Some(ids[i]))
  }

  /** The one request `setValue(value)` issues: a delete of the removed ids
      when some stored id is missing from `value`, otherwise a transact of the
      whole new list. */
  function WriteRequest(stored: seq<Item>, value: seq<Item>): (r: Request)
    ensures r.PostDelete? <==> exists v :: v in stored && !HasId(value, v.id)
    ensures r.PostDelete? ==> r == PostDelete(LedgerName, Subjects(RemovedIds(stored, value)))
    ensures r.PostTransact? ==> r == PostTransact(LedgerName, EncodeAll(value))
    ensures r.PostDelete? || r.PostTransact?
  {
    var deleteItems := RemovedItems(stored, value);
    if |deleteItems| > 0 then
      PostDelete(LedgerName, Subjects(RemovedIds(stored, value)))
    else
      PostTransact(LedgerName, EncodeAll(value))
  }

  /** A write that keeps every stored id transacts the whole new list, even
      when it also adds or edits items. */
  lemma KeptIdsTransact(stored: seq<Item>, value: seq<Item>)
    requires Ids(stored) <= Ids(value)
    ensures WriteRequest(stored, value) == PostTransact(LedgerName, EncodeAll(value))
  {
  }

  /** A write that drops some stored id only deletes: every subject of the
      request is a dropped id, so nothing the new list adds or edits reaches
      the ledger in that write. */
  lemma DeleteWinsOverUpsert(stored: seq<Item>, value: seq<Item>)
    requires !(Ids(stored) <= Ids(value))
    ensures var r := WriteRequest(stored, value);
      && r.PostDelete?
      && |r.subjects| > 0
      && forall s | s in r.subjects :: s.Some? && HasId(stored, s.value) && !HasId(value, s.value)
  {
    var id :| id in Ids(stored) && id !in Ids(value);
    var i :| 0 <= i < |stored| && stored[i].id == id;
    assert stored[i] in RemovedItems(stored, value);
    RemovedIdsExact(stored, value);
  }

  /** Adding one item while removing another: only the removal is sent. */
  lemma AddAndRemoveDropsAddition(a: Item, c: Item)
    requires a.id != c.id
    ensures WriteRequest([a], [c]) == PostDelete(LedgerName, [Some(a.id)])
  {
    assert RemovedItems([a], [c]) == [a];
  }

  /** From `[a, b]` to `[b]`: `remove([a.id])`, and no transact. */
  lemma RemoveOneOfTwo(a: Item, b: Item)
    requires a.id != b.id
    ensures WriteRequest([a, b], [b]) == PostDelete(LedgerName, [Some(a.id)])
  {
    assert RemovedItems([a, b], [b]) == [a];
  }

  /** From the empty list to one unchecked item: a transact of its record. */
  lemma FirstItemTransacts()
    ensures WriteRequest([], [Item("a", None, false, "buy milk", false)])
      == PostTransact(LedgerName, [WireItem("a", [ListItemType], "buy milk", "false", "false")])
  {
    assert EncodeAll([Item("a", None, false, "buy milk", false)])[0]
      == WireItem("a", [ListItemType], "buy milk", "false", "false");
  }

  // ---------------------------------------------------------------------
  // The hook's state
  // ---------------------------------------------------------------------

  /** `useFlureeHook(initialValue)`: `storedValue` is the list the caller sees;
      `sent` records, in order, every request the hook has issued. */
  class Store {
    const initialValue: seq<Item>
    var storedValue: seq<Item>
    ghost var sent: seq<Request>

    constructor (initialValue: seq<Item>)
      ensures this.initialValue == initialValue
      ensures storedValue == initialValue && sent == []
    {
      this.initialValue := initialValue;
      storedValue := initialValue;
      sent := [];
    }

    /** `createLedger(dataArray)`. */
    method CreateLedger(dataArray: Option<seq<WireItem>>)
      modifies this
      ensures storedValue == old(storedValue)
      ensures sent == old(sent) + [PostCreate(LedgerName, CreateTxn(dataArray))]
    {
      sent := sent + [PostCreate(LedgerName, CreateTxn(dataArray))];
    }

    /** `transact(dataArray)`: posts the encoded list and returns the records
      it posted (the ones its error handler may hand to `createLedger`). */
    method Transact(dataArray: seq<Item>) returns (records: seq<WireItem>)
      modifies this
      ensures records == EncodeAll(dataArray)
      ensures storedValue == old(storedValue)
      ensures sent == old(sent) + [PostTransact(LedgerName, records)]
    {
      records := EncodeAll(dataArray);
      sent := sent + [PostTransact(LedgerName, records)];
    }

    /** The `.catch` of a transact that was issued with `records`: a
      missing-ledger error creates the ledger seeded with those records;
      any other error is only logged, or, when its message is not a string,
      makes the handler throw. Either way no request follows. */
    method OnTransactError(records: seq<WireItem>, err: Failure)
      requires PostTransact(LedgerName, records) in sent
      modifies this
      ensures storedValue == old(storedValue)
      ensures sent == old(sent) + if MissingLedger(err) then [PostCreate(LedgerName, CreateTxn(Some(records)))] else []
    {
      if err.message.StringMessage? && Text.Includes(err.message.text, NoCommitExists) {
        CreateLedger(Some(records));
      }
    }

    /** `remove(ids)`: a delete of every subject among `ids`; its errors are only logged. */
    method Remove(ids: seq<string>)
      modifies this
      ensures storedValue == old(storedValue)
      ensures sent == old(sent) + [PostDelete(LedgerName, Subjects(ids))]
    {
      sent := sent + [PostDelete(LedgerName, Subjects(ids))];
    }

    /** `query(...)` for every ListItem, with its `.catch`: the response data
      when the ledger answered; on an error nothing, after creating the ledger
      when the error says it does not exist. A non-string message makes that
      handler throw; `flureeQuery`'s own `.catch` then supplies the fallback,
      so no ledger is created and the result is the same. */
    method Query(outcome: QueryOutcome) returns (r: Option<seq<WireItem>>)
      modifies this
      ensures storedValue == old(storedValue)
      ensures r == if outcome.Answered? then Some(outcome.data) else None
      ensures sent == old(sent) + [PostQuery(LedgerName, ListItemType)]
        + if outcome.Rejected? && MissingLedger(outcome.err) then [PostCreate(LedgerName, CreateTxn(None))] else []
    {
      sent := sent + [PostQuery(LedgerName, ListItemType)];
      match outcome
      case Answered(data) =>
        r := Some(data);
      case Rejected(err) =>
        if err.message.StringMessage? && Text.Includes(err.message.text, NoCommitExists) {
          CreateLedger(None);
        }
        r := None;
    }

    /** The mount effect: `flureeQuery()` followed by `setStoredValue(list)`. */
    method Load(outcome: QueryOutcome)
      modifies this
      ensures storedValue == LoadedList(outcome, initialValue)
      ensures sent == old(sent) + [PostQuery(LedgerName, ListItemType)]
        + if outcome.Rejected? && MissingLedger(outcome.err) then [PostCreate(LedgerName, CreateTxn(None))] else []
    {
      var list := seq(|initialValue|, i requires 0 <= i < |initialValue| => FromInitial(initialValue[i]));
      var r := Query(outcome);
      if r.Some? {
        list := seq(|r.value|, i requires 0 <= i < |r.value| => FromLedger(r.value[i]));
      }
      var decoded := Map(list, Decode);
      storedValue := decoded;
    }

    /** `setValue(value)` for a list argument: one remote request chosen by
      the write rule, then the new list becomes the visible state. */
    method SetValue(value: seq<Item>)
      modifies this
      ensures storedValue == value
      ensures sent == old(sent) + [WriteRequest(old(storedValue), value)]
    {
      var deleteItems := RemovedItems(storedValue, value);
      if |deleteItems| > 0 {
        var itemsToRemove := Map(deleteItems, ItemId);
        Remove(itemsToRemove);
      } else {
        var _ := Transact(value);
      }
      storedValue := value;
    }
  }
}
