/** Value types shared by the sync hook, the client hook and the two app
    components: the in-memory list item, the record shape the Fluree ledger
    stores, and the bodies of the HTTP requests the hooks post. */
module Records {

  datatype Option<+T> = None | Some(value: T)

  /** The ledger both hooks talk to by default. */
  const LedgerName: string := "todomvc"
  /** The type marker every list item record carries on the ledger. */
  const ListItemType: string := "schema:ListItem"
  /** The substring of an error message that means the ledger has no commit yet. */
  const NoCommitExists: string := "No commit exists"
  /** The text of the single record a ledger is created with when no data is given. */
  const NewLedgerMessage: string := "creating new ledger"

  /** A to-do item as the UI holds it. `typeTag` is the type marker the object
      may carry (`rdf:type` on items the app creates, `@type` on items loaded
      from the ledger); None when the object has no such key. */
  datatype Item = Item(id: string, typeTag: Option<seq<string>>, checked: bool, content: string, editMode: bool)

  /** A list item as it is written to and read from the ledger: the booleans
      travel as their string renderings. */
  datatype WireItem = WireItem(id: string, types: seq<string>, content: string, checked: string, editMode: string)

  /** One element of the `txn` array of a create request. */
  datatype TxnEntry = Message(text: string) | Record(item: WireItem)

  /** The body of each HTTP request the hooks issue.
      - PostQuery: POST /query selecting every subject of the given rdf:type;
      - PostTransact: POST /transact with `txn: {'@graph': graph}`;
      - PostDelete: POST /transact with `txn: {delete, where, values: ['?s', subjects]}`,
        None standing for an `undefined` element;
      - PostCreate: POST /create with `txn: txn`. */
  datatype Request =
    | PostQuery(ledger: string, typeFilter: string)
    | PostTransact(ledger: string, graph: seq<WireItem>)
    | PostDelete(ledger: string, subjects: seq<Option<string>>)
    | PostCreate(ledger: string, txn: seq<TxnEntry>)

  /** `ex?.response?.data?.message` of a rejected request: missing when any
      link of that chain is null or undefined, a string, or some other value
      (a number, a plain object), on which calling `includes` throws a
      TypeError inside the handler. */
  datatype ErrorMessage = NoMessage | StringMessage(text: string) | NonStringMessage

  /** A rejected request, reduced to the one thing the hooks inspect. */
  datatype Failure = Failure(message: ErrorMessage)

  /** `b.toString()` for a boolean. */
  function BoolText(b: bool): (s: string)
    ensures s == "true" <==> b
    ensures s == "true" || s == "false"
  {
    if b then "true" else "false"
  }

  /** The `@id`s occurring in a list. */
  function Ids(xs: seq<Item>): (ids: set<string>)
    ensures forall i | 0 <= i < |xs| :: xs[i].id in ids
    ensures forall id | id in ids :: exists i | 0 <= i < |xs| :: xs[i].id == id
  {
    set i | 0 <= i < |xs| :: xs[i].id
  }

  /** `xs.some(x => x['@id'] === id)`. */
  predicate HasId(xs: seq<Item>, id: string)
    ensures HasId(xs, id) <==> id in Ids(xs)
  {
    exists i | 0 <= i < |xs| :: xs[i].id == id
  }

  /** No two items of the list share an `@id`. */
  predicate UniqueIds(xs: seq<Item>) {
    forall i, j | 0 <= i < j < |xs| :: xs[i].id != xs[j].id
  }
}
