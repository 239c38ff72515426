# Collaborative text editor: transform engine and editing session

A Dafny model of the core of a real-time collaborative plain-text editor.

- **Transform engine** (module `OperationalTransform`). It applies an insert, delete or retain operation to a text, with JavaScript `slice` clamping written out through `Min`. It also transforms two concurrent operations. The result is `[op1', op2']`, where `op1'` is `op1` rebased onto `op2` and `op2'` is `op2` rebased onto `op1`. Two overlapping deletes give instead one merged delete, and a retain on either side gives `[op1]`.
- **Editing session** (module `CollaborativeEditor`). This covers the diff extractor (`findInsertPosition`, `findDeletePosition` and how `handleTextChange` builds an operation). It also covers the session state (`content`, `lastContentRef`, `users`, `versions`, `currentVersion`, `pendingOperations`) and its three updates: a local text change, `saveDocument`, and the five-way message reducer. Each update is a pure function on a `SessionState` value. The class `Session` keeps the same fields, and its methods are proved to move the object exactly as those functions say. The two position scans and the `forEach` fold of the receive path are loops in methods, proved against the spec functions `InsertPosition`, `DeletePosition` and `ApplyAll`.
- **Value types** (module `EditorTypes`). `Operation`, `User`, `DocumentVersion`, and `EditorMessage` as a closed datatype with five variants. Optional fields stay `Option`s. `Operation.Text()` and `Operation.Len()` read a missing `content` as `""` and a missing `length` as `0`, the way every consumer in the source does.

Text is `seq<char>`; offsets and lengths are `nat`. Timestamps, the sender's id and the saved version's id come in as parameters.

The model follows the code, which:
- orders inserts at the same offset by operand order (`op1` first);
- does not merge adjacent deletes (one ends where the other starts);
- transforms a received operation against itself, so a remote insert is applied twice (`RemoteOperationEffect`);
- does not clamp cursors;
- empties the pending queue on `saveDocument`;
- keeps the pending queue on a `document-state` message.

## Model

| member | source | states |
|---|---|---|
| OperationalTransform.Apply | src/utils/operationalTransform.ts:73-90 | `applyOperation` on the three kinds, with `slice` clamping. An insert lengthens the text by its content's length. A delete never lengthens it, and an in-range one shortens it by exactly its length. A retain returns the text unchanged. |
| OperationalTransform.ApplyShape | src/utils/operationalTransform.ts:73-90 | An in-range insert keeps the text before the offset, puts the content there and keeps the rest after it, so the length grows by the content's length. An in-range delete keeps the text before the offset and continues with the text after the deleted range, so the length shrinks by the deleted length. Out-of-range offsets clamp: an insert appends, a delete truncates or does nothing. A retain is the identity. |
| OperationalTransform.InsertThenDeleteRestores | src/utils/operationalTransform.ts:75-82 | Inserting `s` at `p <= |t|` and then deleting `|s|` characters at `p` gives back `t`. |
| OperationalTransform.MissingPayloadIsNoOp | src/utils/operationalTransform.ts:76-82 | An insert without content and a delete without length leave any text unchanged, wherever they point. |
| OperationalTransform.Transform | src/utils/operationalTransform.ts:5-71 | `transform`, branch for branch as the source. Its own contract: the result has 1 or 2 elements; its meaning is given by `TransformShape` and the convergence lemmas. |
| OperationalTransform.TransformShape | src/utils/operationalTransform.ts:5-71 | `transform` returns 1 or 2 elements. A retain on either side gives exactly `[op1]`. The result has one element iff an operand is a retain or both are overlapping deletes. A pair is `op1` moved by `Shifted(op1, op2)` and `op2` moved by `Shifted(op2, op1)`, with `op1` winning ties, and nothing else changed. A merged delete starts at the smaller start and has length `max(end1,end2) - min(start1,start2)`. Every element keeps an input's kind, content, user id and timestamp. |
| OperationalTransform.Convergence | src/utils/operationalTransform.ts:12-68 | For in-range operands, except an insert strictly inside the other operand's delete range: whenever the result is a pair `r`, `apply(apply(t, op1), r[1]) == apply(apply(t, op2), r[0])`. |
| OperationalTransform.OrderedInsertsCommute | src/utils/operationalTransform.ts:12-18 | Two in-range inserts at `p1 <= p2` give the same text in both orders once the second is moved forward by the first one's length. |
| OperationalTransform.InsertBeforeDeleteConverges | src/utils/operationalTransform.ts:21-22 | An in-range insert at or before a delete gives the same text in both orders once the delete is moved forward by the inserted length. The branch at lines 35-36 is the same case with the operands swapped. |
| OperationalTransform.InsertAfterDeleteConverges | src/utils/operationalTransform.ts:24-26 | An in-range insert at or after a delete's end gives the same text in both orders once the insert is moved back by the deleted length. The branch at lines 38-40 is the same case with the operands swapped. |
| OperationalTransform.InsertsConverge | src/utils/operationalTransform.ts:12-18 | Insert/insert: both orders of application give the same text, for in-range offsets, in both position orders. |
| OperationalTransform.InsertDeleteConverge | src/utils/operationalTransform.ts:20-32 | Insert/delete: both orders converge when the insert is at or before the delete's start, or at or after its end. |
| OperationalTransform.DeleteInsertConverge | src/utils/operationalTransform.ts:34-46 | Delete/insert: the same with the operands swapped. |
| OperationalTransform.DisjointDeletesCommute | src/utils/operationalTransform.ts:49-52 | Two disjoint in-range deletes commute when the later one is moved back by the earlier one's length. |
| OperationalTransform.DeletesConverge | src/utils/operationalTransform.ts:48-68 | Non-overlapping deletes (adjacent ones included) converge in both position orders. |
| OperationalTransform.InsertInsideDeleteDiverges | src/utils/operationalTransform.ts:20-30 | Counterexample for the excluded case: on "abc", `Insert(2,"X")` against `Delete(1,2)` gives "ac" on one replica and "aX" on the other. |
| OperationalTransform.DeleteAroundInsertDiverges | src/utils/operationalTransform.ts:34-44 | The same counterexample with the delete as `op1`. |
| OperationalTransform.MergedDeleteCoversUnion | src/utils/operationalTransform.ts:48-66 | For overlapping in-range deletes, the single result removes an offset iff either operand does. Applied to the base text, it leaves `t[..min start] + t[max end..]`. |
| OperationalTransform.MergedDeleteExample | src/utils/operationalTransform.ts:53-66 | `Delete(1,3)` and `Delete(2,3)`, in either operand order, merge into `Delete(1,4)`, which turns "abcdef" into "af". |
| OperationalTransform.EqualInsertsFavourFirst | src/utils/operationalTransform.ts:12-14 | Two in-range inserts at the same offset put `op1`'s content before `op2`'s, on both replicas. |
| OperationalTransform.EqualInsertsExample | src/utils/operationalTransform.ts:12-17 | On "ac", inserting "b" and "d" at 1 gives `[Insert(1,"b"), Insert(2,"d")]`, and both replicas reach "abdc". |
| CollaborativeEditor.CommonPrefix | src/components/CollaborativeEditor.tsx:194-198 | The result is at most both lengths, the texts agree below it, and they differ at it when it is below both lengths. |
| CollaborativeEditor.InsertPosition | src/components/CollaborativeEditor.tsx:193-200 | The first offset below both lengths where the texts differ, or else the old length; the texts agree on every offset before it. |
| CollaborativeEditor.DeletePosition | src/components/CollaborativeEditor.tsx:202-209 | The same, falling back to the new length. |
| CollaborativeEditor.FindInsertPosition | src/components/CollaborativeEditor.tsx:193-200 | The scanning loop with early return computes `InsertPosition`. |
| CollaborativeEditor.FindDeletePosition | src/components/CollaborativeEditor.tsx:202-209 | The scanning loop with early return computes `DeletePosition`. |
| CollaborativeEditor.DiffOperation | src/components/CollaborativeEditor.tsx:124-150 | A longer new text gives an insert of `|new|-|old|` characters at an offset within the old text. Otherwise the result is a delete of `|old|-|new|` characters at an offset within the new text. Both carry the given user id and timestamp. |
| CollaborativeEditor.InsertionRoundTrip | src/components/CollaborativeEditor.tsx:126-137 | If `new` is `old` with one non-empty contiguous insertion, the built operation is an insert, and applying it to `old` gives `new`. |
| CollaborativeEditor.DeletionRoundTrip | src/components/CollaborativeEditor.tsx:138-150 | If `new` is `old` with `k` contiguous characters removed, the built operation deletes `k` characters, and applying it to `old` gives `new`. |
| CollaborativeEditor.SameLengthChangeIsLost | src/components/CollaborativeEditor.tsx:138-150 | A change that keeps the length but alters the text gives a zero-length delete. It leaves `old` as it is, so it differs from `new`. |
| CollaborativeEditor.DiffExamples | src/components/CollaborativeEditor.tsx:126-150 | "hello" to "helllo" gives `Insert(4,"l")`; "hello" to "hllo" gives `Delete(1,1)`. |
| CollaborativeEditor.WithoutUser | src/components/CollaborativeEditor.tsx:62-64 | A participant is in the result iff it was in the list and has a different id. |
| CollaborativeEditor.WithoutAbsentUser | src/components/CollaborativeEditor.tsx:62-64 | Removing an id nobody has leaves the list exactly as it was. |
| CollaborativeEditor.WithoutUserKeepsUnique | src/components/CollaborativeEditor.tsx:62-64 | Filtering keeps participant ids unique. |
| CollaborativeEditor.WithoutUserAppend | src/components/CollaborativeEditor.tsx:58 | The filter distributes over concatenation. |
| CollaborativeEditor.WithUser | src/components/CollaborativeEditor.tsx:56-60 | The joined participant comes last. The result holds it and every earlier participant with a different id, and nothing else. |
| CollaborativeEditor.WithUserKeepsUnique | src/components/CollaborativeEditor.tsx:56-60 | A join keeps ids unique. |
| CollaborativeEditor.WithUserIdempotent | src/components/CollaborativeEditor.tsx:56-60 | Joining the same participant twice gives the same list as joining once. |
| CollaborativeEditor.WithCursor | src/components/CollaborativeEditor.tsx:48-54 | Same length. A participant with the id gets the message's cursor, or none when the message has none; every other participant is unchanged. |
| CollaborativeEditor.ApplyAll | src/components/CollaborativeEditor.tsx:39-42 | The left-to-right fold of `applyOperation`. A list of retains leaves the text unchanged, and a list of deletes never lengthens it. |
| CollaborativeEditor.ApplyOperations | src/components/CollaborativeEditor.tsx:39-42 | The `forEach` loop folds the operations onto the text, in order: the result is `ApplyAll`. |
| CollaborativeEditor.ApplyAllShort | src/components/CollaborativeEditor.tsx:39-42 | Folding one operation applies it; folding two applies the first, then the second. |
| CollaborativeEditor.InitialState | src/components/CollaborativeEditor.tsx:15-26 | The initial `useState`/`useRef` values: it is consistent, empty of users, versions and pending operations, and records the local id. |
| CollaborativeEditor.Received | src/components/CollaborativeEditor.tsx:32-75 | The five reducer branches. No branch touches the pending queue or the local id. Only `document-state` changes versions or the version number. Only `operation` and `document-state` change the text. |
| CollaborativeEditor.TextChanged | src/components/CollaborativeEditor.tsx:114-163 | `handleTextChange`: a text equal to `lastContent` leaves the state as it is. Otherwise both texts become the new one. Users, versions, the version number and the local id never change. |
| CollaborativeEditor.Saved | src/components/CollaborativeEditor.tsx:176-191 | `saveDocument`: the text, the reference text, users and local id are kept, the queue is emptied, and exactly one version is added. |
| CollaborativeEditor.ReceivedKeepsConsistent | src/components/CollaborativeEditor.tsx:32-75 | Every incoming message, of each of the five kinds, keeps `content == lastContent` and unique participant ids. |
| CollaborativeEditor.TextChangeKeepsConsistent | src/components/CollaborativeEditor.tsx:114-163 | A local change keeps `content == lastContent` and unique participant ids. |
| CollaborativeEditor.SaveKeepsConsistent | src/components/CollaborativeEditor.tsx:176-191 | A save keeps `content == lastContent` and unique participant ids. |
| CollaborativeEditor.TextChangeQueuesOneOperation | src/components/CollaborativeEditor.tsx:114-163 | A new text equal to `lastContent` changes nothing. Otherwise `content` and `lastContent` become the new text, and exactly one operation, by the local user, is appended to the queue. Users, versions and the version number are unchanged. |
| CollaborativeEditor.TextChangeReplaysInsertion | src/components/CollaborativeEditor.tsx:126-137 | After a local single insertion, the queued operation applied to the previous text gives the new text. |
| CollaborativeEditor.TextChangeReplaysDeletion | src/components/CollaborativeEditor.tsx:138-150 | The same for a local single deletion. |
| CollaborativeEditor.SaveRecordsVersion | src/components/CollaborativeEditor.tsx:176-191 | A save appends exactly one version holding the current text and the pending operations, numbered `currentVersion+1`, with the given id and timestamp. It increments `currentVersion` and empties the queue; `content`, `lastContent` and users are unchanged. |
| CollaborativeEditor.ResyncFromSavedVersion | src/components/CollaborativeEditor.tsx:66-72 | Receiving as `document-state` the version just saved restores the same text and version number. |
| CollaborativeEditor.DocumentStateTwice | src/components/CollaborativeEditor.tsx:66-72 | The same `document-state` received twice leaves text and version as after once. The history grows by the document twice. |
| CollaborativeEditor.UserJoinTwice | src/components/CollaborativeEditor.tsx:56-60 | A repeated `user-join` leaves the state as after the first. |
| CollaborativeEditor.LocalMessagesIgnored | src/components/CollaborativeEditor.tsx:36-60 | An `operation` from the local user, and a `user-join` of the local user, leave the state unchanged. |
| CollaborativeEditor.RemoteOperationEffect | src/components/CollaborativeEditor.tsx:36-45 | A remote operation is transformed against itself, then folded. An in-range insert puts its content in twice. A delete with positive length deletes once. A zero-length delete or a retain changes nothing. `content` and `lastContent` stay equal. |
| CollaborativeEditor.OthersUnchanged | src/components/CollaborativeEditor.tsx:48-64 | `cursor` leaves every participant with another id unchanged. `user-leave` keeps every participant with another id and removes every one with the id. |
| CollaborativeEditor.Session.constructor | src/components/CollaborativeEditor.tsx:16-27 | The initial state: empty text, no users, no versions, version 1 and an empty queue. |
| CollaborativeEditor.Session.HandleTextChange | src/components/CollaborativeEditor.tsx:114-163 | The fields move as `TextChanged` says (built with the two scanning loops), and the invariant is kept. |
| CollaborativeEditor.Session.SaveDocument | src/components/CollaborativeEditor.tsx:176-191 | The fields move as `Saved` says, and the invariant is kept. |
| CollaborativeEditor.Session.HandleWebSocketMessage | src/components/CollaborativeEditor.tsx:32-75 | The fields move as `Received` says for each of the five message kinds, and the invariant is kept. |

## Left out

- Convergence: not stated for an insert strictly inside the other operand's delete range, because it is false there (`InsertInsideDeleteDiverges`, `DeleteAroundInsertDiverges`). It is also stated only for operations whose offsets lie within the text.
- The unreachable fall-through `return [op1]` of `transform` and the `default` branch of `applyOperation` have no counterpart, because the operation kind is a closed datatype.
- Offsets, lengths and cursors are `nat`/`int`. Negative, fractional or non-numeric JavaScript values are not modelled, and neither is `slice` with negative arguments.
- JavaScript strings are sequences of UTF-16 code units; here a character is one Dafny `char`.
- React state updates are modelled as taking effect at once and in order. Batching and the stale `content` captured by the message handler's closure are not modelled.
- `joinSession` is not modelled: it generates a random id and colour from the clock and `Math.random`. The local user id is the session constructor's parameter, and `currentUser`, `isJoined` and `userName` are not kept.
- The version id (built from the clock), timestamps and the sender's id are parameters.
- `sendMessage`, the `isConnected` gating, `handleCursorChange` (it reads the DOM selection), console logging and all rendering (including the last-five version list) are not modelled.
- src/hooks/useWebSocket.tsx (transport, JSON parsing, reconnect timer) is not part of this model.
- src/utils/PricingEngine.ts, src/components/ProductCard.tsx, src/components/PriceDisplay.tsx, src/components/Header.tsx, src/pages/Index.tsx and src/types/index.ts are not part of this model; they are unrelated to the editor.
- The code does not re-transform remote operations against the pending queue, break ties by originator id, merge adjacent deletes, clamp cursors, time out pending operations or resync on reconnect, and neither does the model.
