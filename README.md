# TodoMVC on a Fluree ledger: a Dafny model of the sync core

The app is a TodoMVC front end whose to-do list is mirrored in a remote
Fluree ledger named `todomvc`. This project models the logic under the
React and HTTP layers:

- **The sync hook** (`useFlureeHook`, module `FlureeHook`). Class `Store`
  holds `storedValue`, the list the UI sees.
  - **Load.** On mount it queries the ledger for every `schema:ListItem`.
    It decodes each record with `checked === 'true'` and `editMode = false`.
    When the query gives no response, it runs `initialValue` through the same
    decoding instead.
  - **Write.** Each `setValue(list)` compares ids: the stored items whose
    `@id` is missing from the new list.
  - It then issues exactly one request: `remove(ids)` when any id
    disappeared, otherwise `transact` of the whole encoded list.
  - Then it commits the new list.
  - **Recovery.** A transact whose error message contains
    "No commit exists" makes it call `createLedger` with the records it
    tried to write.
  - **Requests.** The HTTP requests are not sent. Each one is appended to
    a ghost log, `sent`, as a `Records.Request` value that mirrors the JSON
    body. What the ledger answers is a parameter: `Load(outcome)`, and
    `OnTransactError(records, err)`, the transact's `.catch`.
- **The list edits of the two app components** (`src/App.jsx`, and its
  older copy `src/App.js`).
  - The edits are add, delete, toggle one, toggle all, clear completed,
    enter and leave edit mode, and the All/Active/Completed filter.
  - They are pure functions in module `TodoOps`. Lemmas about them state
    order, ids, "nothing else changes" and the partition of the views.
  - Lemmas also state which remote request each edit makes the sync hook
    issue.
  - Classes `AppJsx.App` and `AppJs.App` hold the component state. Each
    handler computes the new list and passes it to the hook's `SetValue`.
- **The unused client hook** (`useFluree`, module `FlureeClient`). It holds
  pure payload builders:
  - `createLedger` takes the id from `id` when it is truthy, otherwise from
    `@id`.
  - A transact failure recreates the ledger whatever the message.
  - `remove` sends the element at index 2 of each entry.

Shared value types are in `Records`. `Array.prototype.map`/`filter` are in
`Lists`. `String.prototype.trim`/`includes` are in `Text`.

Behaviour of the code worth knowing:

- `editMode` **is** sent to the ledger as `"true"`/`"false"`.
- On the fallback path, `initialValue` is not kept unchanged. It goes through
  the same decoding, and `true === 'true'` is false, so every initial item
  loads unchecked. The app passes `[]`, so the app never shows this.
- `setValue` takes the diff before it resolves a function argument.
- `createLedger` gets the already-encoded records, not the items.
- A load query that fails with "No commit exists" also creates the ledger,
  seeded with the single `{message: 'creating new ledger'}` record.

## Model

| member | source | states |
|---|---|---|
| `Records.BoolText` | src/hooks/useFlureeHook.js:70-71 | a boolean's `toString()` is `"true"` exactly when it is true, and otherwise `"false"` |
| `Records.Ids` | src/hooks/useFlureeHook.js:164 | every item's `@id` is in the id set, and every id in the set comes from some item |
| `Records.HasId` | src/hooks/useFlureeHook.js:164 | `list.some(x => x['@id'] === id)` holds exactly when `id` is in the list's id set |
| `Text.Trim` | src/App.jsx:83 | `trim()` yields the empty string exactly for blank input; otherwise it yields a slice of the input that starts and ends with a non-whitespace character, with only whitespace cut away on either side |
| `Text.Includes` | src/hooks/useFlureeHook.js:81 | `includes(sub)` holds exactly when `sub` occurs at some position of the string |
| `FlureeHook.EncodeAll` | src/hooks/useFlureeHook.js:65-75 | transact's records keep the length, the order, each `@id` and `content`; the type is `['schema:ListItem']`; `checked` and `editMode` become `"true"`/`"false"` and read back as the original booleans |
| `FlureeHook.CreateTxn` | src/hooks/useFlureeHook.js:31-48 | `createLedger()` seeds the single message record; with data, one record per element keeps its id, content and string flags and gets the ListItem type |
| `FlureeHook.ReseedWithTransactRecords` | src/hooks/useFlureeHook.js:80-82 | on missing-ledger recovery the ledger is created with exactly the records the failed transact posted (re-encoding encoded records changes nothing) |
| `FlureeHook.ReencodeIdempotent` | src/hooks/useFlureeHook.js:38-48 | createLedger's encoding is idempotent, and it leaves a record unchanged exactly when the record already has the ListItem type |
| `FlureeHook.Decode` | src/hooks/useFlureeHook.js:156-158 | a loaded item is never in edit mode, and it is checked exactly when it came from a ledger record whose `checked` is the string `"true"` |
| `FlureeHook.LoadedList` | src/hooks/useFlureeHook.js:130-159 | an answered query loads one item per record, in order, with the record's id, content and type and `checked == (record.checked == "true")`; with no response, each initial item loads with `checked` and `editMode` false |
| `FlureeHook.LoadAfterTransact` | src/hooks/useFlureeHook.js:156-158 | an encoded list read back decodes to the original items, out of edit mode and with the ListItem type marker: the `checked` round trip |
| `FlureeHook.LoadFallbackEmpty` | src/hooks/useFlureeHook.js:139-145 | with no query response and an empty initial list, the store loads empty |
| `FlureeHook.MissingLedgerMessage` | src/hooks/useFlureeHook.js:81 | a string message that contains "No commit exists" anywhere is taken as a missing ledger; a missing message never is, and neither is a non-string one (its `includes` call throws before any ledger is created) |
| `FlureeHook.RemovedItems` | src/hooks/useFlureeHook.js:163-165 | the removed items are exactly the stored items whose id no new item shares, as a subsequence of the stored list |
| `FlureeHook.RemovedItemsCount` | src/hooks/useFlureeHook.js:163-165 | each removed stored item appears as often as in the stored list; a kept one never |
| `FlureeHook.RemovedIdsCount` | src/hooks/useFlureeHook.js:163-168 | an id absent from the new list is passed to `remove` once per stored item holding it; a kept id never |
| `FlureeHook.RemovedIdsStep` | src/hooks/useFlureeHook.js:163-168 | the first stored item's id leads the removed ids exactly when the new list lacks it, followed by the removed ids of the rest |
| `FlureeHook.RemovedIdsCounts` | src/hooks/useFlureeHook.js:163-168 | `RemovedIdsCount` for every id at once |
| `FlureeHook.RemovedIdsExact` | src/hooks/useFlureeHook.js:163-168 | the ids passed to `remove` are exactly the stored ids absent from the new list, one per stored item holding them, in stored order (a subsequence of the stored ids) |
| `FlureeHook.Subjects` | src/hooks/useFlureeHook.js:99 | the delete's `values` list the given ids one for one, in order |
| `FlureeHook.WriteRequest` | src/hooks/useFlureeHook.js:162-172 | a write issues a delete exactly when some stored item's id is missing from the new list; that delete names the removed ids, and the other case is a transact of the whole encoded new list |
| `FlureeHook.KeptIdsTransact` | src/hooks/useFlureeHook.js:170-172 | a new list that keeps every stored id is transacted whole, additions and edits included |
| `FlureeHook.DeleteWinsOverUpsert` | src/hooks/useFlureeHook.js:167-169 | when any stored id disappears, only a delete is sent, and each of its subjects is a stored id absent from the new list, so no addition or edit reaches the ledger in that write |
| `FlureeHook.AddAndRemoveDropsAddition` | src/hooks/useFlureeHook.js:163-169 | replacing `[a]` by `[c]` sends only `remove([a.id])` |
| `FlureeHook.RemoveOneOfTwo` | src/hooks/useFlureeHook.js:163-169 | going from `[a, b]` to `[b]` sends `remove([a.id])` and no transact |
| `FlureeHook.FirstItemTransacts` | src/hooks/useFlureeHook.js:162-172 | going from `[]` to one unchecked "buy milk" item transacts its record with `checked: "false"` |
| `FlureeHook.Store.constructor` | src/hooks/useFlureeHook.js:8-9 | the hook starts with `storedValue == initialValue` and nothing sent |
| `FlureeHook.Store.CreateLedger` | src/hooks/useFlureeHook.js:30-60 | `createLedger` posts one create request with `CreateTxn(dataArray)` and leaves the list alone |
| `FlureeHook.Store.Transact` | src/hooks/useFlureeHook.js:62-79 | `transact` posts one transact of the encoded list and returns those records |
| `FlureeHook.Store.OnTransactError` | src/hooks/useFlureeHook.js:80-86 | a failure of an issued transact causes exactly one `createLedger(records)` when the message contains "No commit exists", and no request otherwise |
| `FlureeHook.Store.Remove` | src/hooks/useFlureeHook.js:92-106 | `remove(ids)` posts one delete whose values are the ids |
| `FlureeHook.Store.Query` | src/hooks/useFlureeHook.js:108-128 | the ListItem query is posted; its data is returned when the ledger answers; on an error nothing is returned, and the ledger is created with its seed first when the error says it does not exist |
| `FlureeHook.Store.Load` | src/hooks/useFlureeHook.js:11-19 | on mount the visible list becomes `LoadedList(outcome, initialValue)`, after the query and any recovery request |
| `FlureeHook.Store.SetValue` | src/hooks/useFlureeHook.js:162-181 | for a list argument, exactly one request, `WriteRequest(old list, new list)`, is appended, and the visible list becomes the argument whichever request was chosen |
| `TodoOps.Submit` | src/App.jsx:81-98 | blank input leaves the list unchanged; otherwise exactly one item is prepended: the given id and type tag, unchecked, not in edit mode, the trimmed non-empty text; the old items follow in order |
| `TodoOps.SubmitKeepsIdsUnique` | src/App.jsx:85-95 | with a fresh id, the ids stay unique after a submit |
| `TodoOps.SubmitTransacts` | src/App.jsx:85-95 | a non-blank submit makes the hook transact the whole new list |
| `TodoOps.DeleteItem` | src/App.jsx:62-65 | the delete keeps exactly the items whose id differs, in order, and no item with the deleted id remains |
| `TodoOps.DeleteItemCount` | src/App.jsx:63 | every item whose id differs is kept as often as it occurs; items with the deleted id not at all |
| `TodoOps.DeleteUniqueKeepsRest` | src/App.jsx:63 | with unique ids, deleting the id at one position keeps the id of every other position |
| `TodoOps.DeleteKeepsOthers` | src/App.jsx:63 | every id other than the deleted one survives the delete |
| `TodoOps.DeletePresentRemoves` | src/App.jsx:62-65 | deleting a present id makes the hook send a delete whose subjects are all that id |
| `TodoOps.DeleteUniqueRemovesOnce` | src/App.jsx:62-65 | with unique ids, deleting a present id sends `remove([id])` |
| `TodoOps.DeleteAbsentTransacts` | src/App.jsx:62-65 | deleting an absent id leaves the list unchanged, and the hook transacts it whole |
| `TodoOps.FindIndex` | src/App.jsx:45 | `findIndex` gives -1 exactly when the id is absent, and otherwise the first position that holds it |
| `TodoOps.SameIdsTransact` | src/App.jsx:44-49 | an edit that keeps every position's id (toggle, edit mode, toggle all) makes the hook transact the whole new list |
| `TodoOps.ToggleTransacts` | src/App.jsx:44-49 | flipping `checked` at one position makes the hook transact the whole new list |
| `TodoOps.CheckAll` | src/App.jsx:67-74 | toggle all keeps the length, order and every other field, and sets each `checked` to not(non-empty and all checked) |
| `TodoOps.CheckAllToggles` | src/App.jsx:67-74 | on a non-empty list, toggle all flips "all checked", and toggling twice sets every item to the original "all checked" |
| `TodoOps.ClearCompleted` | src/App.jsx:76-79 | clear completed keeps exactly the unchecked items, in order |
| `TodoOps.ClearCompletedIdempotent` | src/App.jsx:76-79 | clearing completed items twice equals clearing once |
| `TodoOps.ClearedIds` | src/App.jsx:77 | ids that disappear when clearing belong to checked items; with unique ids, every checked item's id disappears |
| `TodoOps.ClearCompletedDeletesChecked` | src/App.jsx:76-79 | with unique ids and something checked, clearing makes the hook send a delete, and each deleted id belongs to a checked item |
| `TodoOps.ClearNothingTransacts` | src/App.jsx:76-79 | with nothing checked, clearing changes nothing, and the hook transacts the list whole |
| `TodoOps.ActiveItems` | src/App.jsx:102 | the Active view holds exactly the unchecked items, in order |
| `TodoOps.CompletedItems` | src/App.jsx:103 | the Completed view holds exactly the checked items, in order |
| `TodoOps.ViewCounts` | src/App.jsx:100-104 | each view holds its items as often as they occur in the list, and no other item |
| `TodoOps.CurrentList` | src/App.jsx:100-104 | the status selects the whole list, the Active view or the Completed view |
| `TodoOps.ViewsPartition` | src/App.jsx:100-104 | the Active and Completed views partition the All view (sizes add up, multisets add up), and clear completed yields the Active view |
| `TodoOps.EnterEditMode` | src/App.jsx:51-60 | a double click puts exactly the items holding the id in edit mode and takes all others out of it; nothing else changes |
| `TodoOps.EditInputAfterDoubleClick` | src/App.jsx:52-55 | the edit field takes the content of the last item holding the id, and keeps its text when no item holds it |
| `TodoOps.LeaveEditMode` | src/App.jsx:27-36 | leaving edit mode gives the items holding the id the edit field's text and turns their edit mode off; every other item is unchanged |
| `TodoOps.EditRoundTrip` | src/App.jsx:27-60 | with unique ids, a double click followed by a blur with the field unchanged gives back the same items out of edit mode |
| `AppJsx.App.constructor` | src/App.jsx:14-17 | the component starts with empty fields, the All filter, and a fresh hook over `[]` |
| `AppJsx.App.Visible` | src/App.jsx:100-104 | under All the whole list is shown; under Active exactly the unchecked items, under Completed exactly the checked ones, each as often as in the list and in its order |
| `AppJsx.App.HandleInput` | src/App.jsx:19-21 | sets the input field's text and nothing else |
| `AppJsx.App.HandleEditInput` | src/App.jsx:23-25 | sets the edit field's text and nothing else |
| `AppJsx.App.SetStatus` | src/App.jsx:176-197 | clicking a filter selects that status and nothing else |
| `AppJsx.App.HandleInputSubmit` | src/App.jsx:81-98 | blank input changes and sends nothing; otherwise the list becomes `Submit(...)` with the `schema:ListItem` tag, the hook transacts it, and the input is cleared |
| `AppJsx.App.HandleDelete` | src/App.jsx:62-65 | the list becomes `DeleteItem(list, id)`; a present unique id is sent as `remove([id])`; an absent id leaves the list and transacts it |
| `AppJsx.App.HandleCheck` | src/App.jsx:44-49 | requires the id to be present; flips `checked` of the first item holding it, changes no other item and not the length, and transacts the list |
| `AppJsx.App.HandleDoubleClick` | src/App.jsx:51-60 | the list enters edit mode for the id, the edit field takes the last matching content, and the list is transacted |
| `AppJsx.App.HandleEditItemBlur` | src/App.jsx:27-36 | the list leaves edit mode with the edit field's text, and is transacted |
| `AppJsx.App.HandleCheckAll` | src/App.jsx:67-74 | the list becomes `CheckAll(list)`, and is transacted |
| `AppJsx.App.HandleClearCompleted` | src/App.jsx:76-79 | the list becomes `ClearCompleted(list)`, and the hook's write rule decides the request; with nothing checked, the unchanged list is transacted |
| `AppJs.App.constructor` | src/App.js:14-17 | the component starts with empty fields, the All filter, and a fresh hook over `[]` |
| `AppJs.App.Visible` | src/App.js:102-106 | under All the whole list is shown; under Active exactly the unchecked items, under Completed exactly the checked ones, each as often as in the list and in its order |
| `AppJs.App.HandleInput` | src/App.js:19-21 | sets the input field's text and nothing else |
| `AppJs.App.HandleEditInput` | src/App.js:23-25 | sets the edit field's text and nothing else |
| `AppJs.App.SetStatus` | src/App.js:150-160 | clicking a filter selects that status and nothing else |
| `AppJs.App.HandleInputSubmit` | src/App.js:85-100 | blank input changes and sends nothing; otherwise the new item has no type tag, the hook transacts the new list, and the input is cleared |
| `AppJs.App.HandleDelete` | src/App.js:65-68 | keeps exactly the items with a different id; a present unique id is sent as `remove([id])`; an absent id leaves the list and transacts it |
| `AppJs.App.HandleCheck` | src/App.js:45-50 | requires the id to be present; flips only the first matching item's `checked`, and transacts the list |
| `AppJs.App.HandleDoubleClick` | src/App.js:52-63 | the list enters edit mode for the id, the edit field takes the last matching content, and the list is transacted |
| `AppJs.App.HandleEditItemBlur` | src/App.js:27-37 | the list leaves edit mode with the edit field's text, and is transacted |
| `AppJs.App.HandleCheckAll` | src/App.js:70-78 | the list becomes `CheckAll(list)` (ids and order unchanged), and is transacted |
| `AppJs.App.HandleClearCompleted` | src/App.js:80-83 | the list becomes `ClearCompleted(list)`; with nothing checked, the unchanged list is transacted |
| `FlureeClient.LedgerOf` | src/hooks/useFluree.js:4-8 | the ledger name is `"todomvc"` when the hook's argument is left out, and the argument otherwise |
| `FlureeClient.ToText` | src/hooks/useFluree.js:31-32 | `toString()` renders a boolean as `"true"`/`"false"` and leaves a string as it is |
| `FlureeClient.CreateJsonLd` | src/hooks/useFluree.js:9-16 | `createJSONLD` is a transact body whose `@graph` is the given records, on the hook's ledger (`"todomvc"` by default) |
| `FlureeClient.SubjectId` | src/hooks/useFluree.js:28 | the `id` key wins when it is present and non-empty; otherwise `@id` is used |
| `FlureeClient.CreateLedgerRequest` | src/hooks/useFluree.js:18-54 | without data, `createLedger` seeds the single message record; with data, one record per entry, in order, under `SubjectId`, with the ListItem type and stringified flags |
| `FlureeClient.TransactRecords` | src/hooks/useFluree.js:59-67 | transact's records keep the length, the order, each `@id` and `content`, and stringify `checked`/`editMode` |
| `FlureeClient.TransactRequests` | src/hooks/useFluree.js:56-78 | `transact` issues nothing without an array, and otherwise one `createJSONLD` of its records |
| `FlureeClient.TransactFailureRequests` | src/hooks/useFluree.js:71-75 | every transact failure, whatever its message, issues exactly one create request |
| `FlureeClient.ClientRecoveryIgnoresMessage` | src/hooks/useFluree.js:71-75 | for any error, the create request carries exactly the records the failed transact posted |
| `FlureeClient.SameTransactEncoding` | src/hooks/useFluree.js:59-67 | for list items, the client's transact records equal the sync hook's |
| `FlureeClient.CreatePrefersIdKey` | src/hooks/useFluree.js:26-34 | an entry with a non-empty `id` key is created under that id, but transacted under its `@id` |
| `FlureeClient.ThirdElement` | src/hooks/useFluree.js:89-91 | `item[2]` of any sequence is defined exactly when it has more than two elements, and is then its third element |
| `FlureeClient.RemoveRequests` | src/hooks/useFluree.js:80-98 | `remove` issues nothing without an array; otherwise one delete whose values are the element at index 2 of each entry, in order (undefined for shorter entries) |

## Left out

- HTTP and axios: nothing is sent. Each request is recorded in the ghost log
  `FlureeHook.Store.sent`. The ledger's answers are parameters: the load
  `QueryOutcome`, and the `Failure` given to `OnTransactError`. The ledger's
  own query and transaction semantics are not modelled.
- Promise timing: the requests are fire-and-forget, and their completions
  may arrive in any order. The model does not capture that concurrency.
  - `OnTransactError` may be called for any transact already in the log.
  - `Load` runs as one step; a write that lands while the load query is in
    flight is not modelled.
  - `Store.Transact` returns the encoded records so that a caller can model
    the transact's `.catch`. In the source, the catch handler closes over
    those records.
- `FlureeHook.Store.SetValue`: only list arguments are modelled. The
  function-updater branch (`value instanceof Function`) is left out. In the
  source, the diff is computed on the function value itself before the
  updater runs.
- React machinery (`useState`, `useEffect`, `useCallback`, re-rendering):
  component and hook state are plain fields.
- JSX rendering, `classNames`, CSS, the footer text and the item-count label,
  including its `todoList === 1` comparison in src/App.js: presentation only.
- `uuid()`: the new id is a parameter. Its freshness appears only as the
  hypothesis of `TodoOps.SubmitKeepsIdsUnique`.
- `handleEnterKey`: a keyCode dispatch to `handleEditItemBlur`.
- `console` logging, and the `defaultContext` prefix maps in the create
  requests: constant data with no behaviour.
- `AppJsx.App.HandleCheck`, `AppJs.App.HandleCheck`: the source shallow-copies
  the array and assigns `checked` on the item object, which the old list
  shares. The model builds a new sequence instead. The visible outcome is
  the same: the hook replaces its list, and its diff reads only ids.
- `flureeQuery`'s outer `try/catch` (src/hooks/useFlureeHook.js:151-155):
  it cannot be reached. `query` is async and never throws synchronously, and
  the awaited chain ends in its own `.catch`. The inner `.catch`
  (src/hooks/useFlureeHook.js:146-150) is reached when `query`'s handler
  throws on a non-string message. It yields the same fallback list as any
  other rejection, and the model covers it through `Records.NonStringMessage`.
- `Records.Failure`: the message is absent, a string, or a non-string value
  without `includes`. An array message is not modelled. Its `includes` tests
  the array's elements, so `['No commit exists']` would count as a missing
  ledger.
- `FlureeClient.RemoveRequests`: each entry is an array of strings. A bare
  string entry is not modelled; its `item[2]` is its third character.
- The mount load: neither `App` performs it. After construction the
  environment calls `todos.Load(outcome)`, which is `useEffect`'s first run.
  Until then the list is `[]`.
- Records loaded from the ledger are assumed to have the shape the hooks
  write. Any other keys a loaded object may carry are not modelled.
- `useFluree`'s `query`: it posts a query given by its caller, returns the
  response and only warns on error. Nothing in the core uses it, and the
  query body is opaque, so it is not modelled.
