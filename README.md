# Collaborative editor and animation converter — a Dafny model

This project models the sequential core of a small collaborative code editor and of the Minecraft animation converter that ships in the same repository.

- **Character CRDT** (`client/public/js/crdt.js`): each replica keeps `struct`, an array of items `{char, pos, siteId, id, deleted}`.
  - The array is kept sorted by `(pos, siteId)`: a binary search finds the slot and `splice` inserts the item.
  - Deletion only tombstones an item.
  - New positions come from a fractional-index allocator, `allocPos`, over the code units 32..126.
  - Here it is the class `Crdt.Replica`, whose field `struct: seq<Item>` is reassigned by its methods. The allocator is a loop method, `PosAlloc.AllocPos`.
  - The pure specifications (`Inserted`, `Tombstone`, `Visible`, `Text`, `LowerBound`) sit beside the class, with the lemmas about them.
  - Order-independence of inserts is proved in `Convergence`.
- **Sync server** (`server/socket.js`): a room registry from file id to `{clients, ops}`, with join, relay, leave and delayed eviction. It is the class `SyncServer.Server`.
  - Rooms live in a sequence `store`, so a room's identity is its index. The registry maps a file id to such an index. This makes "the same room" and "a newer room for the same file" two different things, as they are with JavaScript objects.
  - Connections are abstract ids.
  - A broadcast is the list of deliveries it makes; its contract is its set of recipients.
  - The durable operation log is a map from file id to operations. The eviction timers are a list of pending `Timer(fileId, room)` values, which `FireTimer` runs one at a time.
- **Editor glue** (`client/public/js/app.js`): the class `Session.Session`.
  - It turns an editor change into `localDelete`/`localInsert` calls.
  - It sends operations at once or queues them while the socket is closed, and drains the queue on open.
  - It applies incoming `init` and `op` messages to the CRDT and the editor text.
- **Bone names** (`src/boneMapping.js`): module `BoneMapping`. It covers the camelCase→snake_case rewrite and the first-match pattern list, the mapping table lookup, the validity pattern and the dotted hierarchy.
- **Animation conversion** (`src/animationConverter.js`): module `AnimationConverter`. It covers file-name sanitising, channel timelines (sorted by time, with their maximum time), bone conversion and the per-file and batch conversions with their error paths.

JavaScript strings in the CRDT are sequences of UTF-16 code units (`JsStrings.JsString`), and `<` on them is code-unit lexicographic order (`JsStrings.Less`). The bone-name and converter modules work on Dafny `string`s, whose characters are Unicode scalar values rather than code units; "## Left out" says what that loses.

## What the proofs show

- **Allocator.** `allocPos(prev, next)` is always strictly above `prev`. It is strictly below `next` when four conditions hold:
  - `prev < next`;
  - both are over the alphabet 32..126;
  - `next` is not empty;
  - `next` does not end in a space.

  Every position the allocator produces meets the last condition (`PosAlloc.AllocWellFormed`). The "between" promise therefore holds for neighbours the allocator made itself. It fails for `('A', 'A ')`: nothing over the alphabet lies strictly between those two strings.
- **Inserts.** `apply` puts a fresh item at the lower bound of its key, keeps the array sorted and ids unique, and ignores a known id.
  - `localInsert` splices the character into the text at the clamped index, provided the index has a *good gap* (`Crdt.GapOk`). A good gap means that when a right neighbour exists, the pair (left position, or `''` at index 0; right position) meets the four allocator conditions above. When the index is past the last visible item, only the left position has to be over the alphabet. Distinct visible positions imply a good gap at every accepted index, and they are preserved, so this holds along any run of local edits.
  - With pairwise distinct keys, any two replicas that received the same items hold the same array and the same text, whatever the arrival order and repetitions (`Convergence.Converge`).
  - With equal keys, the later arrival goes first, so the order depends on arrival (`Convergence.EqualKeysOrderByArrival`).
  - Equal keys really occur. Neighbours are chosen among *visible* items only, so inserting at 0 after deleting the only character reuses the tombstone's position under the same site id (`Crdt.LocalInsertReusesTombstoneKey`).
- **Editor glue.** `handleLocalChange` leaves the CRDT text equal to the old text with the removed run cut out and the inserted text spliced in. If the insertion throws on an empty document, the text is just the cut text. The operations on the wire followed by the offline queue are always exactly the operations issued so far, in order.
- **Server.** Every connection belongs to the room its file id is registered to. That holds as long as no stale timer has fired: the timer finding below shows it can fail.

## Model

| member | source | states |
|---|---|---|
| JsStrings.LessTrichotomy | client/public/js/crdt.js:105-106 | string `<` is total: two position strings are equal or one is below the other |
| JsStrings.LessTransitive | client/public/js/crdt.js:105-106 | string `<` is transitive, which the sorted-array invariant relies on |
| JsStrings.LessIrreflexive | client/public/js/crdt.js:105-106 | no position string is below itself |
| PosAlloc.AllocPos | client/public/js/crdt.js:113-174 | the loop returns a string above `prev`; over the alphabet it is non-empty, in 32..126 and does not end in a space; under `AllocBelowNext` it is also below `next` |
| PosAlloc.AllocAbove | client/public/js/crdt.js:141-173 | the allocated string is strictly above `prev` for every `prev` and `next` |
| PosAlloc.AllocWellFormed | client/public/js/crdt.js:132-173 | from neighbours over 32..126 the result is over 32..126 and ends above the space |
| PosAlloc.AllocBelow | client/public/js/crdt.js:113-115 | when `prev < next`, both are over the alphabet and `next` is non-empty and does not end in a space, the result is strictly below `next` |
| PosAlloc.AllocNotBelowNextEndingInSpace | client/public/js/crdt.js:141-151 | `allocPos('A', 'A ')` is `'A O'`, which is above `'A '` although `'A' < 'A '` |
| PosAlloc.NothingBetweenPrefixAndSpace | client/public/js/crdt.js:132-133 | no string over the alphabet lies strictly between `'A'` and `'A '`, so that case has no correct answer |
| Crdt.Compare | client/public/js/crdt.js:104-110 | `compare` is -1, 0 or 1, and is -1 iff the key (pos, then siteId) is below, 1 iff above, 0 iff both are equal |
| Crdt.KeyLessTransitive | client/public/js/crdt.js:104-110 | the key order is transitive |
| Crdt.KeyTrichotomy | client/public/js/crdt.js:104-110 | any two keys are ordered one way or are equal |
| Crdt.KeyLessAsymmetric | client/public/js/crdt.js:104-110 | no two keys are each below the other |
| Crdt.Replica.constructor | client/public/js/crdt.js:2-6 | a new replica has the given site id and an empty, valid struct |
| Crdt.Replica.GetText | client/public/js/crdt.js:24-26 | the text has one code unit per non-deleted item, each the item's char, in struct order |
| Crdt.VisibleContains | client/public/js/crdt.js:25 | an item is visible iff it is in the struct and not deleted |
| Crdt.FindInsertionPoint | client/public/js/crdt.js:88-99 | the binary search returns the first index whose item is not below the new one; all items before it are below |
| Crdt.LowerBoundSorted | client/public/js/crdt.js:88-99 | on a sorted struct no item from the lower bound on is below the new item |
| Crdt.Replica.Apply | client/public/js/crdt.js:81-102 | a known id leaves the struct unchanged; otherwise the item is spliced in at its lower bound, the struct stays sorted with unique ids, and the id set grows by the new id |
| Crdt.InsertedIdempotent | client/public/js/crdt.js:86 | inserting an item whose id is present changes nothing, so inserting twice is inserting once |
| Crdt.InsertedSorted | client/public/js/crdt.js:88-101 | inserting a fresh item keeps the struct sorted by key |
| Crdt.InsertedUnique | client/public/js/crdt.js:86-101 | inserting a fresh item keeps ids unique |
| Crdt.InsertedFresh | client/public/js/crdt.js:101 | a fresh insert grows the struct by one, puts the item at its lower bound and leaves the other items in their order |
| Crdt.InsertedIds | client/public/js/crdt.js:86-101 | after an insert the id set is the old one plus the item's id; tombstones grow only by the item's id if it arrives deleted |
| Crdt.Replica.RemoteInsert | client/public/js/crdt.js:70-72 | `remoteInsert` is `apply` and keeps the struct valid |
| Crdt.Replica.LocalInsert | client/public/js/crdt.js:28-59 | fails iff the index is negative or is positive on an empty text; otherwise it returns an undeleted item of this site with the given id, inserts it, and (with a good gap at the index and a fresh id) the text gains the char at the clamped index |
| Crdt.NewItemBetween | client/public/js/crdt.js:37-48 | when the index has a good gap, the new position is well-formed and lies strictly between all visible items before and after the clamped index |
| Crdt.LocalInsertText | client/public/js/crdt.js:28-59 | a fresh local insert at an index with a good gap puts the item into the visible list at the clamped index, splices the char into the text there, and keeps visible positions distinct |
| Crdt.DistinctGapOk | client/public/js/crdt.js:37-46 | when visible positions are pairwise distinct, every index the call accepts has a good gap |
| Crdt.LocalInsertReusesTombstoneKey | client/public/js/crdt.js:32-46 | after deleting the only character, an insert at 0 receives the same position `'O'` and site as the tombstone, so keys repeat and the new item lands before it |
| Crdt.Replica.LocalDelete | client/public/js/crdt.js:61-68 | out of range returns null and changes nothing; otherwise it returns a delete of the i-th visible id, tombstones exactly that item, keeps the length and ids, and the text loses the char at i |
| Crdt.DeleteVisible | client/public/js/crdt.js:62-66 | tombstoning the item behind visible index i removes exactly the i-th visible item and the i-th char of the text |
| Crdt.TombstoneKeeps | client/public/js/crdt.js:66 | a tombstone keeps length, order, unique ids and the id set, and adds only that id to the deleted ids |
| Crdt.FindId | client/public/js/crdt.js:75 | `find` by id gives none iff the id is absent, otherwise the first index holding that id |
| Crdt.Replica.RemoteDelete | client/public/js/crdt.js:74-79 | tombstones the item with that id or changes nothing; length and ids stay, and the deleted ids grow only by that id |
| Crdt.RemoteDeleteIdempotent | client/public/js/crdt.js:74-79 | deleting an absent id changes nothing, and deleting twice is deleting once |
| Crdt.ApplyOpGrows | client/public/js/crdt.js:70-79 | no operation shrinks the struct, forgets an id or undeletes an item |
| Convergence.ApplyAllCollects | client/public/js/crdt.js:81-102 | applying any sequence of coherent items keeps the struct sorted with unique ids and holds exactly the old items plus the new ones |
| Convergence.UniqueSortedStrict | client/public/js/crdt.js:104-110 | with pairwise distinct keys a sorted struct is strictly sorted |
| Convergence.StrictlySortedUnique | client/public/js/crdt.js:88-101 | two strictly sorted structs with the same items are equal |
| Convergence.Converge | client/public/js/crdt.js:81-110 | replicas that received the same items with distinct keys, in any order and with repeats, hold the same struct and the same text |
| Convergence.ConcurrentFirstInserts | client/public/js/crdt.js:28-59 | two sites each inserting one char into an empty document end with the same text whichever insert arrives first |
| Convergence.EqualKeysOrderByArrival | client/public/js/crdt.js:91-101 | of two items with equal keys, the later arrival is placed before the earlier one (the lower bound), so replicas receiving them in different orders show different texts |
| Convergence.DeletesCommute | client/public/js/crdt.js:74-79 | two remote deletes give the same struct in either order |
| Session.VisibleIndex | client/public/js/app.js:254-257 | -1 iff every item with that id is deleted or none exists; otherwise the first visible index holding the id |
| Session.ReplaySnoc | client/public/js/app.js:176-179 | replaying one more operation applies it to the replayed struct |
| Session.ReplayGrows | client/public/js/app.js:176-179 | replaying operations never loses an id or undeletes an item |
| Session.SplicedInRange | client/public/js/app.js:214-235 | within range, the text after a change is the prefix, the inserted text and the suffix past the removed run |
| Session.RemoteInsertEditor | client/public/js/app.js:187-196 | after a remote insert of a fresh item the editor edit (none if the index is -1, else the char at that index) gives exactly the new CRDT text |
| Session.RemoteDeleteEditor | client/public/js/app.js:197-206 | with the index taken before tombstoning, removing one char there (none for -1) gives exactly the new CRDT text |
| Session.Session.constructor | client/public/js/app.js:151-153 | a new session has an empty CRDT for this user, a closed socket and empty queue, wire and editor |
| Session.Session.SendOp | client/public/js/app.js:240-246 | an open socket sends the op at once; otherwise it is appended to the offline queue; wire followed by queue stays the issued sequence |
| Session.Session.OnOpen | client/public/js/app.js:151-159 | opening sends the whole queue in FIFO order after what was already sent and empties it |
| Session.Session.OnClose | client/public/js/app.js:166-168 | closing changes nothing but the socket state, so later ops queue |
| Session.Session.DeleteOne | client/public/js/app.js:222-223 | an op is sent iff the index is in range; the text loses exactly that char; ids and distinct positions are kept |
| Session.Session.DeleteRun | client/public/js/app.js:217-225 | `removedLen` deletes at one index cut that run from the text, one delete op sent per char removed |
| Session.Session.InsertOne | client/public/js/app.js:231-233 | throws iff inserting past 0 into an empty text; otherwise sends an insert op for this user and splices the char in at the clamped index |
| Session.Session.InsertRun | client/public/js/app.js:228-235 | with fresh ids the text gets the run inserted at the clamped index, or throws iff the text is empty, the index positive and the run non-empty; one insert op per char sent |
| Session.Session.ChangeReplica | client/public/js/app.js:216-235 | delete ops for the removed run, then insert ops for the text; the CRDT text ends as the old text with the run replaced, or only cut when the insertion throws |
| Session.Session.HandleLocalChange | client/public/js/app.js:211-236 | the editor already holds the old editor text with the run replaced by the joined inserted lines; the CRDT text changes as in `ChangeReplica`; a completed fresh change on an editor that matched the CRDT text leaves the two matching |
| Session.Session.ApplyInit | client/public/js/app.js:172-181 | `init` replays every op in order and sets the editor to the CRDT text |
| Session.Session.RemoteInsertOp | client/public/js/app.js:187-196 | a remote insert applies `remoteInsert` and keeps the editor equal to the CRDT text for a fresh item |
| Session.Session.RemoteDeleteOp | client/public/js/app.js:197-206 | a remote delete tombstones the id and keeps the editor equal to the CRDT text |
| Session.Session.ApplyRemoteOp | client/public/js/app.js:183-207 | an op carrying this user's site id is ignored; any other is applied; the editor tracks the CRDT text |
| Session.Session.HandleMessage | client/public/js/app.js:171-209 | `init` replays and refreshes, own echoes are ignored, other ops are applied, other messages change nothing; the wire and queue are untouched |
| SyncServer.Broadcast | server/socket.js:87-94 | delivers the message once to every room client whose socket is open, except the sender |
| SyncServer.Server.constructor | server/socket.js:14 | the server starts with no rooms, connections or timers |
| SyncServer.Server.Connect | server/socket.js:16-59 | a missing token or file id or a failed verification closes with 1008 and changes no room; otherwise the connection joins the file's room (created when absent, with the stored log or none), gets `init` with the room's ops and its id, and the open peers get `peer-join` |
| SyncServer.Server.Admit | server/socket.js:36-43 | the registered room is reused, else a new one is registered; the connection is added to its clients |
| SyncServer.Server.CreateRoom | server/socket.js:37-41 | a new room for an unregistered file is registered with the given history and this one client |
| SyncServer.Server.JoinRoom | server/socket.js:42-43 | joining adds the connection to the registered room only |
| SyncServer.Server.StopOpen | server/socket.js:90 | a socket that leaves the open state no longer receives broadcasts; nothing else changes |
| SyncServer.Server.Receive | server/socket.js:61-68 | an op is appended to the room's ops, relayed and logged when storage succeeds; a cursor is only relayed; a save with content updates only the preview; anything else, or unparseable JSON, changes nothing |
| SyncServer.Server.Close | server/socket.js:70-84 | the connection leaves its room and the open peers get `peer-leave`; an eviction timer is set iff the room is now empty |
| SyncServer.RegisteredSharesRoom | server/socket.js:37-43 | while every connection's room is the one registered for its file, two connections to one file share a room |
| SyncServer.Server.FireTimer | server/socket.js:80-82 | the timer as written: it deletes the file's registry entry whenever its own room is empty, whichever room the entry now names |
| SyncServer.Server.FireTimerChecked | server/socket.js:80-82 | the timer removes the entry only if it still names the timer's own empty room, so every connection stays in its file's registered room |
| SyncServer.StaleTimerScenario | server/socket.js:70-84 | open, leave, open, leave, first timer, open, second timer, open: with the timer as written the third and fourth clients end in different rooms and the third's op reaches nobody; with the checked timer they share a room and the op is relayed |
| BoneMapping.LowerNoUpper | src/boneMapping.js:179 | `toLowerCase` keeps the length, leaves no ASCII capital, and changes nothing without capitals |
| BoneMapping.SplitLowerUpperEveryBoundary | src/boneMapping.js:177 | the global replace puts `_` before every capital that follows a lower-case letter or digit |
| BoneMapping.SplitAcronymEveryBoundary | src/boneMapping.js:178 | the global replace puts `_` after every capital followed by a capital and a lower-case letter |
| BoneMapping.RulesDotEntityPrefix | src/boneMapping.js:182-204 | the first-match pattern list only turns a `player_` or `entity_` prefix into `player.` or `entity.`; every other entry leaves the name as it is |
| BoneMapping.TransformBoneName | src/boneMapping.js:172-207 | the loop returns the snake-cased name with at most the first matching rewrite applied |
| BoneMapping.TransformNoUpper | src/boneMapping.js:176-204 | a transformed name has no ASCII capitals |
| BoneMapping.TransformIdempotent | src/boneMapping.js:172-207 | transforming a transformed name changes nothing |
| BoneMapping.MapBoneNames | src/boneMapping.js:10-165 | a table key maps to its value; otherwise the result is a table value or the transformed name |
| BoneMapping.MappedNameFallbackStable | src/boneMapping.js:156-164 | when neither the name nor its transform is a key, the transform is returned and mapping it again changes nothing |
| BoneMapping.ValidBedrockBoneNameIff | src/boneMapping.js:214-222 | valid iff non-empty, only letters, digits, dots and underscores, and no leading, trailing or doubled underscore |
| BoneMapping.Split | src/boneMapping.js:230 | `split('.')` gives at least one part, no part holds a dot, and joining the parts gives the name back |
| BoneMapping.SplitJoin | src/boneMapping.js:230-234 | splitting a join of dot-free parts gives those parts back |
| BoneMapping.SplitMany | src/boneMapping.js:241 | more than one part iff the name holds a dot |
| BoneMapping.GetBoneHierarchy | src/boneMapping.js:229-243 | parts are the split name; the k-th hierarchy entry joins the first k+1 parts, is a prefix of the name, and the last equals the name; depth is parts minus one; hierarchical iff the name holds a dot |
| BoneMapping.CommonBoneNames | src/boneMapping.js:250-261 | a known entity type gives its listed bones; any other gives the player bones; every set returned is non-empty and every name in it passes the Bedrock bone-name pattern |
| AnimationConverter.SanitizeNameForm | src/animationConverter.js:278-284 | a sanitised name has only lower-case letters, digits, `.`, `_`, `-`, and starts with a letter when not empty |
| AnimationConverter.SanitizeNameFixes | src/animationConverter.js:278-284 | a name already in that form and not ending in `.json` is left unchanged |
| AnimationConverter.MaxTimeIsMax | src/animationConverter.js:188-192 | the running `maxTime` is at least 0 and every key time, and is 0 or one of them |
| AnimationConverter.SortByTimeSorted | src/animationConverter.js:209 | the timeline sort orders entries ascending by time and is a permutation |
| AnimationConverter.ChannelOfShape | src/animationConverter.js:186-273 | no keyframes gives null; otherwise one entry per keyframe, sorted by time, a permutation of the keyframes' entries, with `maxTime` bounding every time |
| AnimationConverter.ConvertChannel | src/animationConverter.js:186-215 | the channel loop computes the channel conversion described by `ChannelOfShape` |
| AnimationConverter.BoneOutcomeShape | src/animationConverter.js:135-181 | a null bone throws; otherwise it converts iff some channel has keyframes, under the mapped name, each channel present iff it had keyframes, with duration at least 0 and every key time |
| AnimationConverter.ConvertBoneAnimation | src/animationConverter.js:135-181 | the bone conversion computes the outcome described by `BoneOutcomeShape` |
| AnimationConverter.FoldBonesCounts | src/animationConverter.js:93-101 | the bone count only grows, keys are never lost, there are no more new keys than converted bones, and the maximum duration only grows |
| AnimationConverter.ConvertedOf | src/animationConverter.js:95-96 | the converted bones, in order, are empty exactly when no bone outcome is a conversion |
| AnimationConverter.ConvertedDurations | src/animationConverter.js:95-100 | every converted bone of an entry has a non-negative duration |
| AnimationConverter.EntriesConvertedNone | src/animationConverter.js:87-106 | no bone of the file converts exactly when no entry has a converted bone |
| AnimationConverter.FoldBonesConverted | src/animationConverter.js:93-101 | the bone count grows by exactly the number of converted bones; the maximum duration bounds each of their durations and is the start value or one of them |
| AnimationConverter.FoldAnimsSucceeds | src/animationConverter.js:87-90 | the entry loop completes exactly when no entry is `null` (reading `bones` of `null` throws outside the per-bone `try`) |
| AnimationConverter.FoldAnimsConverted | src/animationConverter.js:87-106 | a completed entry loop counts exactly the converted bones of all entries; the maximum duration bounds each of them and is 0 or one of them |
| AnimationConverter.FoldBonesKeys | src/animationConverter.js:93-98 | the bone loop adds exactly the converted bones' names as keys; each holds the animation of the last bone of that name, and other keys keep theirs |
| AnimationConverter.FoldAnimsKeys | src/animationConverter.js:87-106 | a completed entry loop stores the converted bones of all entries over the map in order, with the same keys and last-bone-wins values |
| AnimationConverter.FoldAnimsStaysFailed | src/animationConverter.js:87-106 | once a thrown error aborts the file, later entries do not revive it |
| AnimationConverter.SingleAnimationErrors | src/animationConverter.js:87-116 | with entries present, a `TypeError` happens exactly when an entry is `null`, and "no valid bones" exactly when no entry is `null` and no bone of any entry converts; "no animations created" never happens |
| AnimationConverter.SingleAnimationShape | src/animationConverter.js:99-128 | a success counts exactly the converted bones, has `boneCount >= keys >= 1`, keys exactly the converted bones' names with the last bone of each name winning, the sanitised name and the original file name, and its duration is the largest duration of its converted bones |
| AnimationConverter.ConvertSingleAnimation | src/animationConverter.js:67-130 | the nested loops compute the per-file conversion described by `SingleAnimationErrors` and `SingleAnimationShape` |
| AnimationConverter.BatchShape | src/animationConverter.js:9-62 | the batch succeeds iff some file converts; then it keeps the successes and only them, counts them, carries the resource-pack name, and logs every file with success iff it converted |
| AnimationConverter.SuccessesInOrder | src/animationConverter.js:17-37 | the kept successes are the results at strictly increasing indices, and every success index is among them |
| AnimationConverter.SuccessesCount | src/animationConverter.js:17-37 | the number of kept successes is the number of results that succeeded |
| AnimationConverter.BatchOrder | src/animationConverter.js:9-62 | a successful batch keeps the k-th converting file's result in k-th place, and its count is the number of files that converted |
| AnimationConverter.ConvertJavaToBedrockAnimation | src/animationConverter.js:9-62 | the batch loop computes the batch result described by `BatchShape` |

## Left out

- Sockets, SQLite, JWT, timers and the editor widget are not modelled as I/O.
  - `verifyToken` becomes an optional user passed to `Connect`.
  - The outcome of the history query and of each database write is a boolean parameter.
  - `setTimeout` becomes a pending `Timer` that `FireTimer` runs later.
  - CodeMirror positions are linear indices.
- Ids and timing are not generated. `uuid.v4()` connection ids are a counter. `Date.now()`/`Math.random()` item ids and `processingTime` are parameters or left out.
- The `loadHistory` race is not modelled. A second join can arrive while the history query is pending (server/socket.js:37-41). The model treats each connection event as atomic.
- Join does not check that the file exists. Nothing in server/socket.js does; the model follows the code.
- `fromSnapshot`, `getSnapshot` and the unused `tombstones` set of the CRDT add no behaviour and are not modelled.
- Aliasing is not modelled. The item object queued offline is the same object as the one in `struct`, and `localDelete`/`remoteDelete` flip `deleted` on it in place. The model uses values.
- Session.Session.OnOpen: `if (!crdt) crdt = new CRDT(...)` is not modelled. The session owns its replica from the start.
- Session.Session.OnClose: app.js only logs on close. This member stands for the socket's `readyState` leaving 1, which is what `sendOp` tests.
- Session.Session.HandleLocalChange: line breaks between removed and inserted lines count as one code unit each, as `join('\n')` does. The CodeMirror index conversion is not modelled. When an insert throws, the editor keeps the whole change while the CRDT holds only the cut text; app.js does not resynchronise them, and the model says nothing about their agreement in that case.
- Session.Session.ApplyRemoteOp: for an echo of an insert whose id the replica already holds, the CRDT ignores it but app.js still edits the editor at the found index. The editor/CRDT agreement is stated only for fresh ids.
- Session.Session.InsertRun: the text splice is stated only for fresh ids at an index with a good gap. There is always a good gap when visible positions are pairwise distinct (`Crdt.DistinctGapOk`), which the local operations preserve.
- Crdt.Replica.LocalInsert: the text splice is likewise stated only when the index has a good gap. Strict order alone is not enough: for neighbours `('A', 'A ')` no position lies between them (the allocator finding below).
- Floating point is not modelled.
  - Key times are exact `real`s, already parsed. `parseFloat`, `NaN` and `Math.max` with `NaN` are not modelled.
  - Rotation values stay symbolic as "quaternion of these degrees". The trigonometry and the `[a, b, c, d]` string formatting are not modelled.
- Object order is not modelled. `Object.entries` order is the order of the given sequence, and a JavaScript object key set is a Dafny map.
- The bone-name and converter modules see Unicode scalar values, not UTF-16 code units. JavaScript's regular expressions without the `u` flag match per code unit, so a character outside the Basic Multilingual Plane counts as two there. For example, `sanitizeName('a😀b')` gives `'a__b'` in JavaScript but `"a_b"` in `AnimationConverter.SanitizeName`. Lone surrogates cannot be expressed at all. Names whose characters all lie within the Basic Multilingual Plane behave the same in both.
- Case mapping covers ASCII only: `toLowerCase` and the `i` flag of `/\.json$/i` are modelled for A–Z. Other letters are left as they are.
- JavaScript object-literal quirks are left out: inherited keys such as `constructor` in `boneMappings[...]` or `boneSets[...]` are not modelled, and the tables are finite maps.
- A `null` entry under `animations` or a channel object that is not an object is not modelled. A `null` bone entry is modelled, as the `TypeError` it raises.

## Findings

| source | as written | input that shows it | evidently intended | confidence | as-written member | corrected member |
|---|---|---|---|---|---|---|
| server/socket.js:80-82 | the eviction timer deletes `rooms[fileId]` when *its* room is empty, without checking that the map still holds that room | a client opens the file and leaves (timer T1), a second opens it and leaves (timer T2), T1 evicts the empty room, a third client opens the file and gets a new room, then T2 fires: T2's own room is still empty, so the entry for the file, which now names the third client's live room, is deleted; a fourth client gets yet another room and an op of the third reaches nobody | evict only if `rooms.get(fileId) === room` and it is empty | not executed | SyncServer.Server.FireTimer, SyncServer.StaleTimerScenario | SyncServer.Server.FireTimerChecked |
| client/public/js/crdt.js:113-173 | `allocPos` promises a string between `prev` and `next` but only ensures it is above `prev` | `allocPos('A', 'A ')` returns `'A O'`, above `'A '` | the "between" promise, for neighbours that do not end in a space, which all allocated positions satisfy | not executed | PosAlloc.AllocNotBelowNextEndingInSpace | PosAlloc.AllocBelow |
