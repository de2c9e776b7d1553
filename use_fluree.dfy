/** The client hook of src/hooks/useFluree.js, which the app does not use:
    payload builders for create, transact and delete requests against a ledger
    whose name is the hook's argument. Its encoding differs from the sync
    hook's in three ways: `createLedger` prefers an `id` key over `@id`, every
    transact failure recreates the ledger, and `remove` sends the element at
    index 2 of each entry it is given. */
module FlureeClient {
  import opened Records
  import FlureeHook

  const DefaultLedgerName: string := "todomvc"

  /** `useFluree(ledgerName = defaultLedgerName)`: the default applies only
      when the argument is left out. */
  function LedgerOf(ledgerName: Option<string>): (name: string)
    ensures ledgerName.None? ==> name == DefaultLedgerName
    ensures ledgerName.Some? ==> name == ledgerName.value
  {
    match ledgerName
    case None => DefaultLedgerName
    case Some(n) => n
  }

  /** A value `toString()` is called on: a boolean, or a string already. */
  datatype Scalar = Bool(b: bool) | Str(s: string)

  /** `v.toString()`. */
  function ToText(v: Scalar): (s: string)
    ensures v.Bool? ==> (s == "true" <==> v.b) && (s == "true" || s == "false")
    ensures v.Str? ==> s == v.s
  {
    match v
    case Bool(b) => BoolText(b)
    case Str(s) => s
  }

  /** An object handed to the builders: an optional `id` key, `@id`,
      `content`, and the `checked` and `editMode` values. */
  datatype Entry = Entry(altId: Option<string>, atId: string, content: string, checked: Scalar, editMode: Scalar)

  /** A list item as the client hook receives it. */
  function FromItem(x: Item): Entry {
    Entry(None, x.id, x.content, Bool(x.checked), Bool(x.editMode))
  }

  /** A record the client hook built, handed back to it. */
  function FromRecord(w: WireItem): Entry {
    Entry(None, w.id, w.content, Str(w.checked), Str(w.editMode))
  }

  /** `createJSONLD(dataArray)`: the body of a transact of `dataArray`. */
  function CreateJsonLd(ledgerName: Option<string>, dataArray: seq<WireItem>): (r: Request)
    ensures r.PostTransact? && r.graph == dataArray
    ensures r.ledger == if ledgerName.None? then DefaultLedgerName else ledgerName.value
  {
    PostTransact(LedgerOf(ledgerName), dataArray)
  }

  /** `d["id"] || d["@id"]`: the `id` key when it is truthy (present and not
      the empty string), `@id` otherwise. */
  function SubjectId(d: Entry): (id: string)
    ensures d.altId.Some? && d.altId.value != "" ==> id == d.altId.value
    ensures !(d.altId.Some? && d.altId.value != "") ==> id == d.atId
  {
    if d.altId.Some? && d.altId.value != "" then d.altId.value else d.atId
  }

  /** The record `createLedger` builds from one entry. */
  function CreateEncode(d: Entry): WireItem {
    WireItem(SubjectId(d), [ListItemType], d.content, ToText(d.checked), ToText(d.editMode))
  }

  /** The record `transact` builds from one entry: `@id` only. */
  function TransactEncode(d: Entry): WireItem {
    WireItem(d.atId, [ListItemType], d.content, ToText(d.checked), ToText(d.editMode))
  }

  /** The create request `createLedger(dataArray)` posts: the seed message
      without data, one record per entry otherwise. */
  function CreateLedgerRequest(ledgerName: Option<string>, dataArray: Option<seq<Entry>>): (r: Request)
    ensures r.PostCreate? && r.ledger == LedgerOf(ledgerName)
    ensures dataArray.None? ==> r.txn == [Message(NewLedgerMessage)]
    ensures dataArray.Some? ==> |r.txn| == |dataArray.value| && forall i | 0 <= i < |r.txn| ::
      && r.txn[i].Record?
      && r.txn[i].item.id == SubjectId(dataArray.value[i])
      && r.txn[i].item.content == dataArray.value[i].content
      && r.txn[i].item.types == [ListItemType]
      && r.txn[i].item.checked == ToText(dataArray.value[i].checked)
      && r.txn[i].item.editMode == ToText(dataArray.value[i].editMode)
  {
    var txn := match dataArray
      case None => [Message(NewLedgerMessage)]
      case Some(ds) => seq(|ds|, i requires 0 <= i < |ds| => Record(CreateEncode(ds[i])));
    PostCreate(LedgerOf(ledgerName), txn)
  }

  /** The records `transact(dataArray)` posts. */
  function TransactRecords(dataArray: seq<Entry>): (r: seq<WireItem>)
    ensures |r| == |dataArray| && forall i | 0 <= i < |r| ::
      && r[i].id == dataArray[i].atId
      && r[i].content == dataArray[i].content
      && r[i].types == [ListItemType]
      && r[i].checked == ToText(dataArray[i].checked)
      && r[i].editMode == ToText(dataArray[i].editMode)
  {
    seq(|dataArray|, i requires 0 <= i < |dataArray| => TransactEncode(dataArray[i]))
  }

  /** The requests `transact(dataArray)` issues: nothing without an array, a
      transact of the encoded records otherwise. */
  function TransactRequests(ledgerName: Option<string>, dataArray: Option<seq<Entry>>): (r: seq<Request>)
    ensures dataArray.None? ==> r == []
    ensures dataArray.Some? ==> r == [CreateJsonLd(ledgerName, TransactRecords(dataArray.value))]
  {
    match dataArray
    case None => []
    case Some(ds) => [CreateJsonLd(ledgerName, TransactRecords(ds))]
  }

  /** The `.catch` of that transact: whatever the error, the ledger is created
      with the records the transact posted. */
  function TransactFailureRequests(ledgerName: Option<string>, records: seq<WireItem>, err: Failure): (r: seq<Request>)
    ensures |r| == 1 && r[0].PostCreate?
  {
    [CreateLedgerRequest(ledgerName, Some(seq(|records|, i requires 0 <= i < |records| => FromRecord(records[i]))))]
  }

  /** The client recreates the ledger on any transact failure, whatever its
      message (the sync hook does so only for a missing-ledger message),
      seeded with exactly the records it tried to write. */
  lemma ClientRecoveryIgnoresMessage(ledgerName: Option<string>, xs: seq<Entry>, err: Failure)
    ensures var records := TransactRecords(xs);
      TransactFailureRequests(ledgerName, records, err)
        == [PostCreate(LedgerOf(ledgerName), seq(|records|, i requires 0 <= i < |records| => Record(records[i])))]
  {
    var records := TransactRecords(xs);
    var entries := seq(|records|, i requires 0 <= i < |records| => FromRecord(records[i]));
    forall i | 0 <= i < |records| ensures CreateEncode(entries[i]) == records[i] {
      assert entries[i] == FromRecord(records[i]);
    }
    var txn := CreateLedgerRequest(ledgerName, Some(entries)).txn;
    assert txn == seq(|records|, i requires 0 <= i < |records| => Record(records[i]));
  }

  /** For list items the client's transact records are the sync hook's. */
  lemma SameTransactEncoding(xs: seq<Item>)
    ensures TransactRecords(seq(|xs|, i requires 0 <= i < |xs| => FromItem(xs[i]))) == FlureeHook.EncodeAll(xs)
  {
  }

  /** An entry with a non-empty `id` key is created under that id but
      transacted under its `@id`. */
  lemma CreatePrefersIdKey(d: Entry)
    requires d.altId.Some? && d.altId.value != ""
    ensures CreateEncode(d).id == d.altId.value
    ensures TransactEncode(d).id == d.atId
  {
  }

  /** `item[2]`, None standing for `undefined` when the entry is shorter. */
  function ThirdElement<T>(item: seq<T>): (r: Option<T>)
    ensures |item| > 2 <==> r.Some?
    ensures |item| > 2 ==> r.value == item[2]
  {
    if |item| > 2 then Some(item[2]) else None
  }

  /** The requests `remove(dataArray)` issues: nothing without an array,
      otherwise a delete whose values are the elements at index 2 of the
      entries, in order. */
  function RemoveRequests(ledgerName: Option<string>, dataArray: Option<seq<seq<string>>>): (r: seq<Request>)
    ensures dataArray.None? ==> r == []
    ensures dataArray.Some? ==>
      && |r| == 1 && r[0].PostDelete? && r[0].ledger == LedgerOf(ledgerName)
      && |r[0].subjects| == |dataArray.value|
      && forall i | 0 <= i < |dataArray.value| ::
           r[0].subjects[i] == if |dataArray.value[i]| > 2 then Some(dataArray.value[i][2]) else None
  {
    match dataArray
    case None => []
    case Some(items) =>
      [PostDelete(LedgerOf(ledgerName), seq(|items|, i requires 0 <= i < |items| => ThirdElement(items[i])))]
  }
}
