# Contact book: store and edit session

A model of the state logic of a small React Native contact book. The list
screen (`Contact`) owns an in-memory list of `ContactDetails` records seeded
from a bundled dataset; pull-to-refresh puts the seed back, and
`updateContact` replaces, by id, the whole record whose id matches. The
detail screen (`Details`) keeps a private working copy of the four editable
fields of one record, changes one field per text input, and ends with Save
(commit a record carrying the original id and the working-copy fields, then
go back) or Cancel (only go back).

- `contact_store.dfy`, module `ContactStore`: the `Contact` record, the
  keyed replace `Replace` (the `map` in `updateContact`), the screen state
  `Store(seed, list, refreshing)` with `Refresh` and `Update`, and the
  store invariant "one record per id".
- `edit_session.dfy`, module `EditSession`: the working copy (`Draft`),
  `Open`, `SetField`, the record `Committed` builds, `Save` and `Cancel` as
  the sequences of effects they request (`Commit(item)`, `GoBack`), and
  `Perform`, which runs those effects against the store with the store's
  `Update` as the commit callback.

`useState` is modelled as plain assignment: each state write is a function
from one `Store` or `Session` value to the next. An unknown id on update is
a silent no-op, as in the code.

## Model

Members that only compute a state change and carry no contract of their
own are covered by the row of the member that characterises them: `Init`
by `InitValid`, `SetRefreshing` and `SetList` by `Refresh` and `Update`,
`Run` by `RunKeepsValid`, `RunKeepsSeed` and `RefreshDiscardsEdits`,
`ApplyEdits` by `ApplyEditsLastWrite`, and `Perform` by `PerformIsUpdates`.

| member | source | states |
|---|---|---|
| ContactStore.Ids | src/views/Contact.tsx:14-20 | the id sequence of a list has its length and, at each position, that record's id |
| ContactStore.Substitute | src/views/Contact.tsx:34-37 | the `map` callback returns the incoming `item` where the ids agree and the given record otherwise: the result always has the given record's id and is one of the two records |
| ContactStore.Replace | src/views/Contact.tsx:33-38 | `updateContact`'s `map` returns exactly as many records as it was given |
| ContactStore.ReplaceAt | src/views/Contact.tsx:33-38 | every position whose id equals `item.id` holds `item`; every other position holds its old record, at the same index |
| ContactStore.ReplaceMeetsReference | src/views/Contact.tsx:32-40 | a list satisfies the position-by-position definition of a keyed whole-record replace if and only if it is the result of `Replace` |
| ContactStore.ReplaceUnknownId | src/views/Contact.tsx:33-39 | when no record has `item.id`, the list is left identical |
| ContactStore.ReplaceIdempotent | src/views/Contact.tsx:32-40 | replacing twice with the same record gives the list that replacing once gives |
| ContactStore.ReplaceKeepsIds | src/views/Contact.tsx:33-38 | the sequence of ids, in order, is the same before and after the replace |
| ContactStore.ReplaceKeepsUniqueIds | src/views/Contact.tsx:33-38 | ids are unique after the replace exactly when they were unique before |
| ContactStore.ReplaceUniqueAt | src/views/Contact.tsx:33-38 | with unique ids, replacing by the id at position k is the single-position update at k |
| ContactStore.ReplaceWithMember | src/views/Contact.tsx:33-38 | with unique ids, replacing by a record already in the list leaves the list unchanged |
| ContactStore.ReplaceWithMemberNeedsUniqueIds | src/views/Contact.tsx:33-38 | with two records sharing an id, writing one of them back overwrites the other, so the uniqueness premise above is needed |
| ContactStore.Refresh | src/views/Contact.tsx:26-30 | after `refreshContact` (the `SetRefreshing`, `SetList`, `SetRefreshing` writes) the list is the seed, `refreshing` is false and the seed is unchanged, whatever the state before |
| ContactStore.Update | src/views/Contact.tsx:32-40 | `updateContact` sets the list (`SetList`) to a keyed whole-record replace of the old list by `item`, and keeps the seed, the refreshing flag and the id sequence, so it keeps the one-record-per-id invariant |
| ContactStore.UpdateAll | src/views/Contact.tsx:32-40 | any run of `updateContact` calls keeps the seed, the refreshing flag and the id sequence |
| ContactStore.UpdateUnknownId | src/views/Contact.tsx:32-40 | an update whose id is not in the list leaves the whole screen state unchanged |
| ContactStore.InitValid | src/views/Contact.tsx:23-24 | the mounted screen (`Init`) shows the seed, not refreshing, and meets the invariant when the seed has unique ids |
| ContactStore.Step | src/views/Contact.tsx:26-40 | a refresh or an update keeps the seed and the store invariant |
| ContactStore.RunKeepsValid | src/views/Contact.tsx:23-40 | every sequence (`Run`) of refreshes and updates keeps the invariant and the seed |
| ContactStore.RunKeepsSeed | src/views/Contact.tsx:23-40 | no sequence of refreshes and updates changes the seed |
| ContactStore.RefreshDiscardsEdits | src/views/Contact.tsx:23-30 | whatever refreshes and updates came before, a refresh returns the screen to the state it mounted in |
| EditSession.Open | src/views/Details.tsx:35-38 | the working copy's first name, last name, email and phone start equal to the opened record's |
| EditSession.SetField | src/views/Details.tsx:89-132 | a text change sets exactly the field of its input and leaves the other three fields and the opened record unchanged |
| EditSession.ApplyEditsSnoc | src/views/Details.tsx:89-132 | applying a run of text changes then one more is applying that one change to the result of the run |
| EditSession.ApplyEditsLastWrite | src/views/Details.tsx:92-131 | after any run of changes (`ApplyEdits`, one `onChangeText` setter call each) each field holds the value of the last change to it, or its value before the run if it was never changed (the opened record's value for a session just opened); the opened record is untouched |
| EditSession.Committed | src/views/Details.tsx:47-53 | the record Save commits has the opened record's id and the working copy's four field values |
| EditSession.Commits | src/views/Details.tsx:46-55 | a record is among those a run of effects commits exactly when a commit of it is one of the effects |
| EditSession.Save | src/views/Details.tsx:46-55 | Save commits exactly one record, the one built from the working copy, and goes back exactly once, as its last effect |
| EditSession.Cancel | src/views/Details.tsx:44 | Cancel commits nothing and goes back exactly once, as its last effect |
| EditSession.PerformIsUpdates | src/views/Details.tsx:44-55 | running a session's effects against the store (`Perform`) is applying `updateContact` to the committed records in order; going back never touches the store |
| EditSession.SessionEffects | src/views/Details.tsx:57-71 | the Save button commits the record built from the edited working copy and the Cancel button commits nothing; either goes back once, last |
| EditSession.Outcome | src/views/Details.tsx:44-55 | after any session the store keeps its seed, refreshing flag, id sequence and invariant |
| EditSession.PerformWithoutCommits | src/views/Details.tsx:44 | effects that commit nothing leave the store unchanged |
| EditSession.CancelLeaksNothing | src/views/Details.tsx:60-64 | after any text changes followed by Cancel, the store is identical to the store before the session |
| EditSession.SaveCommitsLastWrites | src/views/Details.tsx:46-55 | Save after any changes is one store update with a record carrying the opened id and each field's last written value |
| EditSession.SaveWithoutEditsIsNoOp | src/views/Details.tsx:35-53 | Save with no changes commits the opened record itself, which leaves a list with unique ids unchanged |
| EditSession.SingleEditSave | src/views/Details.tsx:46-55 | one change then Save on the record at position k: that position keeps its id, takes the new value in the changed field, keeps the other fields; all other positions are unchanged |
| EditSession.PhoneEditScenario | src/views/Details.tsx:125-132 | on the one-record seed (Ada Lovelace, phone 555), changing the phone to 999 and saving gives the same record with phone 999 |
| EditSession.CancelScenario | src/views/Details.tsx:60-64 | on the same seed, changing the first name and cancelling leaves the list equal to the seed |

## Left out

- Loading the seed from `../assets/data.json`: the seed is a field of the store value, supplied by the caller, and never changes.
- Rendering, styles, `FlatList`, `RefreshControl`, `KeyboardAvoidingView`, keyboard dismissal and the focus chain between the text inputs: presentation only, no effect on the data.
- Navigation: `goBack` is the `GoBack` effect, which leaves the store alone; passing the record and the callback through route parameters is modelled as `Open(c)` plus `Update` being the commit callback.
- The list item's press handler is empty, so no list-to-detail transition is modelled; a session can be opened on any record.
- `src/App.tsx`: navigator wiring with no logic.
- React's batching of the three state writes in `refreshContact`: the writes are applied in order, which gives the same final state.
- Id uniqueness of the seed is an assumption about the bundled data, not something the code checks or guarantees: `Valid`, `InitValid`, `ReplaceUniqueAt`, `ReplaceWithMember`, `SaveWithoutEditsIsNoOp` and `SingleEditSave` take it as a premise; `ReplaceWithMemberNeedsUniqueIds` shows what happens without it.
- `updateContact` builds the new list from the `contactList` it captured when the screen last rendered, not from a functional `setContactList(prev => ...)`; `Update`, `Run` and `Perform` read the current list instead. No path in this code can tell them apart: the list item's press handler is empty, so no detail screen is ever handed the callback, and the list cannot refresh while a detail screen is on top, so the captured list is always the current one.
- Records are not validated; strings are modelled as `seq<char>` with no normalisation.
