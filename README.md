# Collaborative editor backend: persistence registry and presence hub

This project models the two server-side state machines of a collaborative
code editor backend. It also proves what they promise.

- **Persistence** (`retry.dfy`, `persistence.dfy`). The `Retry` module holds
  the bounded retry loop with linear backoff. The `Persistence` module holds
  the registry of open Yjs documents (`activeYDocs`), lazy hydration from the
  document store, the debounced save listener, the `isSaving`-guarded
  upsert, and `closeYDoc`. The registry is the class `Registry`. Its steps
  are the pieces of the JavaScript between two awaits: `OnUpdate` (an update
  to a document), `TimerFire` (a timer firing), `SaveEnd` (a timer's save
  settling), `CloseBegin` (a close up to its final save) and `CloseEnd` (the
  end of that close). Any order of these steps can be played out.
  `GetOrCreate` keeps `getOrCreateYDoc` as a single step. The `*Corrected`
  methods are the corrections listed under "## Findings", and the remaining
  methods are helpers inside a step.
- **Presence** (`presence.dfy`). The `Presence` module holds the handlers of
  one Socket.IO connection in `server.js`: connect, `joinRoom`,
  `cursorChange`, `setAppNickname` and `disconnect`. They work over
  `socketToRoomMap`, `userInfoMap` and the server's room membership, all kept
  in the class `Hub`. Every emit is returned as a `Broadcast`: the event name,
  the exact set of sockets it reaches (for room ids that are no socket's
  id), and its payload. Acknowledgement callbacks are returned as values.
- `option.dfy` holds the `Option` datatype.

The modelling choices:

- The CRDT is opaque. A document is the byte string its state encodes to.
  Applying stored bytes either succeeds or throws, and a `corrupt` flag says
  which.
- The store is a map keyed by the unique `roomId`.
- An operation under retry is given as its sequence of outcomes, one per
  attempt. The model records the number of invocations and the waits between
  attempts.
- A room id is "no room" when it is absent or empty, as JavaScript's
  truthiness has it.

Three hub invariants are preserved by every handler:

- membership agrees with `socketToRoomMap`;
- each connected socket is in the room its entry names;
- rooms are non-empty and hold connected sockets only.

From these invariants the model proves that each socket is in at most one
truthy app room, and in exactly `roomId` right after `joinRoom(roomId)` with
a truthy `roomId`. It also proves that an emit to a room never leaks outside
it, as long as no room id equals a socket id (see "Socket.IO" under
"## Left out").

Behaviours of the code that the model keeps as they are:

- **The final save in `closeYDoc`.** It calls `saveYDocToDB`
  (`backend/yjs-persistence-logic.js:169`), whose `isSaving` guard
  (`:53-56`) skips it while another save of the room is in flight. The entry
  is then deleted without a final save.
- **An update that arrives mid-save.** The listener still schedules a new
  timer (`:130-146`). When that timer fires while the first save is still
  running, the guard skips its save, and nothing saves that update until a
  later edit schedules another timer or the room is closed (the final save
  of a close that starts after the first save has settled passes the guard
  and stores the current state).
- **The backoff.** The comment calls it exponential
  (`backend/yjs-persistence-logic.js:41`), but the code's backoff is linear:
  `retryDelayMs * attempts`.
- **The empty room id `""`.** It is falsy. A socket can join it and
  `userJoinedAppRoom` is emitted to it. But a later `joinRoom` does not leave
  it, and `cursorChange`, `setAppNickname` and `disconnect` treat the socket
  as having no room. So on disconnect its `socketToRoomMap` entry `""` is
  never deleted.

## Model

| member | source | states |
|---|---|---|
| `Retry.FirstOk` | backend/yjs-persistence-logic.js:29-33 | the index it returns is preceded only by failures and is itself a success, or is past the end when every outcome fails |
| `Retry.Backoff` | backend/yjs-persistence-logic.js:36-41 | the waits between n + 1 attempts number n, and the i-th (from 1) is retryDelayMs * i: linear, not exponential |
| `Retry.RetryOperation` | backend/yjs-persistence-logic.js:27-44 | the loop invokes the operation at most maxRetries times; every call but the last failed; a returned value is the last call's success; a throw comes only after exactly maxRetries failures and rethrows the last error; waits follow the linear backoff, with none after the final attempt; with maxRetries <= 0 nothing is invoked and it resolves to undefined |
| `Retry.SucceedsAfterFailures` | backend/yjs-persistence-logic.js:29-38 | K failures then a success, with K < maxRetries, take exactly K + 1 invocations and return that success's value |
| `Retry.AlwaysFails` | backend/yjs-persistence-logic.js:29-38 | an operation failing on every attempt is invoked exactly maxRetries times and its last error is rethrown |
| `Retry.ReturnsIffSomeSuccess` | backend/yjs-persistence-logic.js:28-38 | retryOperation resolves to a value if and only if some attempt within the budget succeeds, and the value is one the operation returned |
| `Persistence.SettleOutcomes` | backend/yjs-persistence-logic.js:63-69 | a retried storage call resolves if and only if one of its first MAX_DB_RETRIES attempts passes, and then yields the store's answer |
| `Persistence.HydrationFallsBackToEmpty` | backend/yjs-persistence-logic.js:97-127 | a new document holds the stored state exactly when a record exists, the load passes within the retries and the bytes apply; a missing record, a persistent load failure and corrupt bytes each leave it empty |
| `Persistence.Registry.constructor` | backend/yjs-persistence-logic.js:6 | the registry starts with no open room, no timer and no save in flight, and satisfies its invariant |
| `Persistence.Registry.WithStore` | backend/yjs-persistence-logic.js:6 | the same empty registry over a given document store |
| `Persistence.Registry.Load` | backend/yjs-persistence-logic.js:94-127 | hydration gives the state HydratedState assigns to the room's record, the load attempts and the apply outcome; the store is only read |
| `Persistence.Registry.Upsert` | backend/yjs-persistence-logic.js:62-81 | on success the room's record holds the snapshot and every other record is unchanged (upsert by roomId); a persistent failure is swallowed and changes nothing; no other state changes |
| `Persistence.Registry.GetOrCreate` | backend/yjs-persistence-logic.js:87-154 | an open room returns its document and changes nothing (no load); otherwise a new document is hydrated, the listener is attached and the entry is registered with saveTimeout null and isSaving false; the store is never written; the debounce invariant is kept |
| `Persistence.Registry.Listener` | backend/yjs-persistence-logic.js:130-147 | the room's entry is looked up afresh; its pending timer is cleared and a new debounce timer for the document is scheduled and becomes its saveTimeout; with no entry the timer is still scheduled and no entry changes; nothing else changes; the debounce invariant is kept while the listener is attached |
| `Persistence.Registry.OnUpdate` | backend/yjs-persistence-logic.js:130-149 | an update changes the document and, when the listener is attached, runs it with the roomId it captured; a detached document schedules nothing; the debounce invariant is kept |
| `Persistence.Registry.TimerFire` | backend/yjs-persistence-logic.js:51-62 | a fired timer whose room is saving starts no save and writes nothing (the callback then clears saveTimeout); otherwise the entry is marked isSaving and a save of the document's current snapshot is in flight for that timer's callback; the debounce invariant is kept |
| `Persistence.Registry.FinishSave` | backend/yjs-persistence-logic.js:69-84 | when a save settles, the store maps the room to the snapshot on success and is unchanged on persistent failure, and isSaving is false again on the entry the save marked; no failure reaches the caller; the debounce invariant is kept |
| `Persistence.Registry.SaveEnd` | backend/yjs-persistence-logic.js:135-139 | the timer callback as written: after the save, saveTimeout is set to null whichever timer it refers to by then |
| `Persistence.Registry.SaveEndCorrected` | backend/yjs-persistence-logic.js:135-139 | the callback clears saveTimeout only while it still is the fired timer, and so keeps the debounce invariant |
| `Persistence.Registry.CancelTimer` | backend/yjs-persistence-logic.js:162-165 | clearTimeout removes the entry's saveTimeout timer from the pending ones and changes nothing else; under the debounce invariant no timer of the room is left pending |
| `Persistence.Registry.CloseBegin` | backend/yjs-persistence-logic.js:156-169 | closeYDoc up to its await, as written: an absent room is a no-op; otherwise the pending timer is cleared; while another save is in flight the guard skips the final save and the listener is detached and the entry deleted at once; otherwise the entry is marked isSaving and the final save of the current state is in flight with the listener still attached |
| `Persistence.Registry.CloseEnd` | backend/yjs-persistence-logic.js:169-174 | after the final save settles as the upsert allows, the closing document's listener is detached and the room's entry, whichever it is by then, is deleted; pending timers are left as they are |
| `Persistence.Registry.Detach` | backend/yjs-persistence-logic.js:171-173 | ydoc.off removes the listener of the room's document and changes nothing else; the debounce invariant is kept |
| `Persistence.Registry.StartQuietSave` | backend/yjs-persistence-logic.js:58-62 | the final save of a corrected close marks the entry saving with no saveTimeout and takes the current snapshot; the debounce invariant is kept when the timer was cleared and the listener detached first |
| `Persistence.Registry.CloseBeginCorrected` | backend/yjs-persistence-logic.js:156-174 | the close with the listener detached and saveTimeout reset before the final save, so the debounce invariant is kept across the await |
| `Persistence.Registry.Resave` | backend/yjs-persistence-logic.js:62-81 | the settled upsert writes the store as Upsert does, and the same save goes on with the document's current state; nothing else changes; the debounce invariant is kept |
| `Persistence.Registry.CloseEndCorrected` | backend/yjs-persistence-logic.js:169-174 | after the final save, a document changed since the snapshot is saved again and the close goes on; otherwise the entry is deleted only while it is still the one being closed; when the close ends with a successful upsert, the store holds the document's current state; the debounce invariant is kept |
| `Persistence.AtMostOnePendingTimer` | backend/yjs-persistence-logic.js:131-142 | under the debounce invariant a room has at most one pending save timer |
| `Persistence.OpenAndEdit` | backend/yjs-persistence-logic.js:87-154 | a room with no record opens empty, and its first edit schedules exactly one timer |
| `Persistence.EditDuringSave` | backend/yjs-persistence-logic.js:52-58 | an edit during an in-flight save schedules a new timer while isSaving stays set |
| `Persistence.StaleTimerScenario` | backend/yjs-persistence-logic.js:137-138 | with the callback as written, two timers end up pending for one room |
| `Persistence.CorrectedTimerScenario` | backend/yjs-persistence-logic.js:137-138 | with the corrected callback, the same events leave one pending timer |
| `Persistence.CloseRaceScenario` | backend/yjs-persistence-logic.js:169-174 | with closeYDoc as written, an edit during the final save leaves a pending timer for a room that is no longer open |
| `Persistence.CorrectedCloseScenario` | backend/yjs-persistence-logic.js:169-174 | with the corrected close, the same events leave no pending timer, and the edit made during the final save is stored by a second round of that save |
| `Persistence.SaveAndClose` | backend/yjs-persistence-logic.js:156-177 | after a debounced save and a close as written, the room is no longer open and the store holds the edited content |
| `Persistence.SaveAndReloadScenario` | backend/yjs-persistence-logic.js:97-104 | a saved, closed room reopens with the content it was saved with |
| `Presence.DefaultNickname` | backend/server.js:33 | the default nickname is "User-" followed by the first five characters of the socket id (all of it when shorter) |
| `Presence.Join` | backend/server.js:55 | socket.join adds the socket to the room and changes no other room |
| `Presence.Leave` | backend/server.js:41 | socket.leave removes the socket from the room, deletes the room when it becomes empty, and changes no other room |
| `Presence.LeaveAll` | backend/server.js:134-141 | before the disconnect handler runs, the socket is out of every room and emptied rooms are gone |
| `Presence.CursorPayload` | backend/server.js:94-98 | the payload has cursorData's keys plus userId and nickname; cursorData's fields win over the first two |
| `Presence.AppendUser` | backend/server.js:69-78 | pushing a new member with its nickname grows the users list by exactly that id and keeps it free of duplicates |
| `Presence.RoomsAfterJoin` | backend/server.js:39-56 | after joinRoom only the joiner's memberships change: it is in the new room and still in every other room except the truthy previous one it left |
| `Presence.JoinKeepsMembersAgree` | backend/server.js:39-56 | joinRoom keeps every member's socketToRoomMap value equal to its room (the falsy "" excepted) |
| `Presence.JoinKeepsRoomsHeld` | backend/server.js:39-56 | joinRoom keeps every connected socket a member of the room its map entry names |
| `Presence.JoinKeepsRoomsLive` | backend/server.js:39-56 | joinRoom keeps rooms non-empty and made of connected sockets |
| `Presence.JoinKeepsHubInv` | backend/server.js:35-86 | joinRoom by a connected socket keeps the whole hub invariant |
| `Presence.DisconnectKeepsMembersAgree` | backend/server.js:134-153 | disconnect keeps membership and socketToRoomMap in agreement |
| `Presence.DisconnectKeepsRoomsHeld` | backend/server.js:134-153 | after disconnect every connected socket is still in its room; the departed socket keeps an entry only when it is "" |
| `Presence.DisconnectKeepsRoomsLive` | backend/server.js:134-153 | disconnect keeps rooms non-empty and made of connected sockets |
| `Presence.Hub.constructor` | backend/server.js:27-28 | both maps and the membership start empty and the invariant holds |
| `Presence.Hub.Connect` | backend/server.js:33 | a new socket is recorded with the default nickname; no room or other socket changes |
| `Presence.Hub.UsersInRoom` | backend/server.js:69-78 | the list holds every other member of the room exactly once, each with its userInfoMap nickname or the default |
| `Presence.Hub.LeavePrevious` | backend/server.js:39-53 | a truthy previous room that differs is left before exactly one userLeftAppRoom is sent to its remaining members, carrying that roomId and the current nickname; otherwise nothing is sent and nothing changes |
| `Presence.Hub.Enter` | backend/server.js:55-64 | the socket joins roomId, which becomes its socketToRoomMap value, and userJoinedAppRoom reaches the room's members other than the joiner |
| `Presence.Hub.JoinRoom` | backend/server.js:35-86 | switching rooms emits exactly one leave to the old room's remaining members, then one join to the new room's others; rejoining the same room emits the join only; afterwards socketToRoomMap maps the socket to roomId and it is a member there; the callback gets the ok acknowledgement without the users list; the invariant is kept |
| `Presence.Hub.Acknowledge` | backend/server.js:66-84 | with a callback the acknowledgement is status ok, the message and roomId; without one there is none |
| `Presence.Hub.CursorChange` | backend/server.js:88-112 | from a socket with no truthy room nothing is sent; otherwise one cursorUpdate reaches exactly the other members of its room; no state changes |
| `Presence.Hub.SetAppNickname` | backend/server.js:115-132 | the nickname is stored and acknowledged; a socket in a room has userNicknameChanged with old and new nickname sent to all members, itself included |
| `Presence.Hub.Disconnect` | backend/server.js:134-153 | a socket with a truthy room has one userLeftAppRoom with its last nickname sent to the remaining members and loses its socketToRoomMap entry; its userInfoMap entry goes; no other socket's entries change |
| `Presence.OneAppRoom` | backend/server.js:55-56 | in every reachable state a socket is a member of a truthy room exactly when socketToRoomMap names that room: one app room at most |
| `Presence.MembersShareRoom` | backend/server.js:88-102 | every member of a sender's room has that room as its own socketToRoomMap value, so room emits never leak across rooms |
| `Presence.FirstJoin` | backend/server.js:30-64 | two sockets connect and the first joins a room, with the resulting maps and membership |
| `Presence.SharedRoom` | backend/server.js:59-64 | the second joiner's arrival is announced to the first socket only, with the default nickname |
| `Presence.TwoUsersScenario` | backend/server.js:88-112 | a cursor reaches only the other member of the room; switching rooms sends one leave to the old room and a join to nobody |

## Left out

- **Entries as values.** Each `activeYDocs` entry is a value in a map. The
  identity of the entry object that `saveYDocToDB` holds across its `await`
  is represented by the number of the document allocated with the entry.
  Y.Doc objects live in a sequence indexed by that number.
- **Interleaving inside `getOrCreateYDoc`.** `GetOrCreate` runs as one step,
  so its awaited load is not interleaved with other events. Concurrent
  `getOrCreateYDoc` calls for one room can race around line 151, and that
  race is not modelled.
- **Yjs.** `Y.encodeStateAsUpdate` and `Y.applyUpdate` are the identity on
  opaque bytes, and an apply that throws is a `corrupt` flag.
- **Timers.** The debounce delay is recorded on each timer, but no clock
  exists, and every order of timer firings is allowed.
- **`SAVE_DEBOUNCE_MS`.** The environment override is not modelled; the
  default of 2500 is used.
- **Logging.** All of it is left out.
- **The users list.** `usersInRoom` is built in the order of a set, not
  Socket.IO's insertion order.
- **Socket.IO.** The transport, CORS and the HTTP server are not modelled.
  Neither is the room Socket.IO creates for each socket under that socket's
  id. So the recipient sets and the no-leak results hold only for room ids
  that are no socket's id. A client can learn another socket's id from the
  `userId` of `userJoinedAppRoom` or `cursorUpdate` and call `joinRoom` with
  it. The emits of `backend/server.js:46`, `:59`, `:102`, `:123` and `:141`
  to that room then also reach the socket it is named after, whose own
  `socketToRoomMap` entry names another room. `Presence.MembersShareRoom`,
  `Presence.Hub.LeavePrevious`, `Presence.Hub.Enter`,
  `Presence.Hub.CursorChange`, `Presence.Hub.SetAppNickname` and
  `Presence.Hub.Disconnect` do not capture that socket. Because
  `socket.to` excludes the sender through its own-id room, a socket that
  has left that room by joining its own id and then another room also
  receives its own broadcasts, which the model does not capture either.
- **Payload types.** Room ids and nicknames are strings, and `cursorData` is
  taken to be a map of fields. A client that sends another JSON value (a
  numeric or missing `roomId`, say) is not modelled.
- **`activeUsers`.** The unused map (`backend/server.js:15`) is left out.
- **Other files.** `backend/yjs-server.js`, `backend/config/db.js`,
  `backend/models/DocumentModel.js` and the frontend are not part of this
  model. The schema trims `roomId` (`backend/models/DocumentModel.js:10`), so
  the real store treats " r1" and "r1" as one record while `activeYDocs`
  keeps them apart. The model keys the store by the untrimmed id.
- **Save flags.** No invariant ties an entry's `isSaving` flag to the saves
  in flight. The guard's effect is stated per step instead: the equations of
  `TimerFire`, `FinishSave` and `CloseBegin`.

## Findings

| source | as written | input that shows it | evidently intended | confidence | as-written member | corrected member |
|---|---|---|---|---|---|---|
| backend/yjs-persistence-logic.js:137-138 | after its save, the timer callback sets `entry.saveTimeout = null`, even when an update during the save has already replaced it with a newer pending timer | open a room and edit it (timer 0); timer 0 fires and its save starts; edit again (timer 1); the save ends and saveTimeout becomes null while timer 1 is still pending; edit again: timer 1 is not cleared and timer 2 is added, so two timers are pending and `closeYDoc` can cancel only one | clear saveTimeout only while it still refers to the timer that fired, keeping at most one pending timer per room | not executed | `Persistence.Registry.SaveEnd`, `Persistence.StaleTimerScenario` | `Persistence.Registry.SaveEndCorrected`, `Persistence.CorrectedTimerScenario` |
| backend/yjs-persistence-logic.js:169-174 | `closeYDoc` detaches the update listener only after its awaited final save, and then deletes the room's entry without looking at timers | open a room and edit it (timer 0); close it: timer 0 is cleared and the final save starts; edit again during that save: the listener is still attached and schedules timer 1; the save ends and the entry is deleted, so timer 1 is pending for a room that is no longer open; the edit reaches the store only when timer 1 fires after the close has finished | detach the listener and reset saveTimeout before the final save; save again while the document changed after the last snapshot, so an edit made during the close is stored by the close itself; then delete the entry only while it is still the one being closed. No timer outlives the close | not executed | `Persistence.Registry.CloseBegin`, `Persistence.Registry.CloseEnd`, `Persistence.CloseRaceScenario` | `Persistence.Registry.CloseBeginCorrected`, `Persistence.Registry.CloseEndCorrected`, `Persistence.CorrectedCloseScenario` |
