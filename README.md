# Collaborative JSON editor client — a verified model

`client.js` is the browser client of a collaborative JSON editor. Each client holds
a CRDT replica whose root map stores one JSON document under the key `'doc'`. The
client edits that document by whole-document replace, by setting a value at a path,
or by deleting a dotted key. It ships each local change to the server as base64 text
tagged with its room. It applies the snapshots and updates the server sends back,
without echoing them.

This project models three parts of that client and proves what they promise.

- **The patch engine** (`Json`, `Patch`).
  - JSON values are a datatype. A deep copy `JSON.parse(JSON.stringify(x))` is the
    identity on it.
  - The starting rule `ymap.get('doc') || {}` is kept.
  - The JavaScript property-access rules the walks rely on are spelled out:
    truthiness, `typeof === 'object' && !== null`, array-index keys, plain stores and
    strict-mode `delete`.
  - The source walks an aliased `ref` through the copy. Here each walk is a `while`
    loop that keeps the nodes it passed in a trail of frames. Each loop is proved
    equal to a recursive function (`SetIn`, `DeleteIn`), and lemmas state what those
    functions do to the document.
- **The update codec** (`Base64`, `Codec`).
  - `btoa` is base64 with the alphabet and padding of section 4 of RFC 4648.
  - `atob` is the HTML standard's forgiving-base64 decode: whitespace is skipped,
    padding is optional, and it fails where the browser throws.
  - The chunked char-code loop and the byte-copy loop are methods, proved against
    those functions.
- **The session** (`Session`).
  - The module-level globals form a `Client` class, and the replica is a `Replica`
    class.
  - The CRDT engine is a parameter: an `Engine` with a merge function and an
    update-bytes function.
  - Methods cover the 'update' listener's echo gate, `UpdateFromServer`,
    `ApplyPatch`, the send and delete button handlers, and `handleMessage`.
  - Each method states the whole new state, including what it leaves unchanged.

In two places the code does not do what the client is meant to do. The model of
`handleMessage` follows the code, and "## Findings" sets a corrected handler beside
it for each.

## Model

| member | source | states |
|---|---|---|
| Json.StartValue | client.js:71 | The walk starts from the stored document when it is present and truthy, and from `{}` otherwise; the start is always truthy. |
| Json.ChildOfPut | client.js:75-78 | A store `c[k] = x` makes `k` read back `x`, leaves every other key of the container as it was, and keeps an array an array. |
| Json.IndexRoundTrip | client.js:74-78 | A numeric path segment `n`, used as the property key `String(n)`, names array element `n`. |
| Json.ArrayIndexInjective | client.js:75 | Two different keys never name the same array element. |
| Json.Remove | client.js:200 | Strict-mode `delete c[k]` removes `k` and leaves every other key and the container's kind as they were. It throws exactly on `null`, an array's `length`, a string's `length` or a string's character. On a boolean, number or string that does not throw, it changes nothing. |
| Patch.WalkSet | client.js:71-78 | The set loop over the aliased `ref` produces exactly `SetIn(cur, path, value)`. |
| Patch.SetReaches | client.js:73-78 | After a path set, the value at the path is the value set. |
| Patch.SetAlongPath | client.js:73-77 | After a path set, each intermediate is the object or array found there, or `{}` where it was missing, null or a primitive, with only its entry on the path rewritten. |
| Patch.SetOffPath | client.js:73-78 | After a path set, every entry that leaves the path keeps its prior value. |
| Patch.SetExample | client.js:71-79 | Setting `["a","b"]` to 5 on `{}` gives `{"a":{"b":5}}`. |
| Patch.PatchResultMeaning | client.js:63-80 | A full replace writes exactly the new document. A path set throws exactly when the starting document is a primitive; otherwise it writes a document holding the value at the path, and it never refuses. |
| Patch.WalkDelete | client.js:194-200 | The delete loop, with its early return, produces exactly `DeleteIn(cur, path)`. |
| Patch.DeleteRefusal | client.js:196-197 | The delete refuses with "Invalid path" exactly when some intermediate of the split key is not a non-null object. |
| Patch.DeleteThrows | client.js:196-200 | The delete throws a TypeError exactly when every intermediate is an object or array and strict `delete` of the final key on the last of them throws. |
| Patch.DeleteRemovesKey | client.js:200 | A delete that goes through leaves nothing at the deleted path. |
| Patch.DeleteAlongPath | client.js:195-200 | A delete that goes through rewrites each node on the path only at its path entry, and the last node is the old one with the final key removed. |
| Patch.DeleteOffPath | client.js:195-200 | A delete that goes through leaves every entry off the path as it was. |
| Patch.DeleteExamples | client.js:193-201 | Deleting `a.b` on `{"a":{"b":5,"c":1}}` gives `{"a":{"c":1}}`, and deleting `x.y` on `{}` is refused. |
| Patch.Split | client.js:193 | `key.split('.')` gives at least one piece, and no piece contains a dot. |
| Patch.JoinSplit | client.js:193 | `key.split('.')` loses nothing: joining the pieces with dots gives the key back. |
| Patch.SplitJoin | client.js:193 | Splitting on '.' inverts joining dot-free pieces. |
| Base64.Encode | client.js:32 | `btoa` of `n` bytes is `4 * ((n + 2) / 3)` characters long: one padded group of four per three bytes. |
| Base64.EncodeF | client.js:32 | `btoa` gives "" for no bytes and "Zg==" for "f", as in section 10 of RFC 4648. |
| Base64.EncodeFo | client.js:32 | `btoa` gives "Zm8=" for "fo" (RFC 4648, section 10). |
| Base64.EncodeFoo | client.js:32 | `btoa` gives "Zm9v" for "foo" (RFC 4648, section 10). |
| Base64.EncodeFoob | client.js:32 | `btoa` gives "Zm9vYg==" for "foob" (RFC 4648, section 10). |
| Base64.EncodeFooba | client.js:32 | `btoa` gives "Zm9vYmE=" for "fooba" (RFC 4648, section 10). |
| Base64.EncodeFoobar | client.js:32 | `btoa` gives "Zm9vYmFy" for "foobar" (RFC 4648, section 10). |
| Base64.EncodeAlphabetEnd | client.js:32 | `btoa` uses `+` and `/` for the two characters after `9`: bytes fb ff give "+/8=". |
| Base64.DecodeEncode | client.js:32-36 | `atob(btoa(b))` gives back every byte sequence, including the empty one. |
| Base64.DecodeFails | client.js:36 | `atob` throws exactly when, once whitespace and final padding are dropped, the length is 1 mod 4 or a character lies outside the alphabet. Otherwise it yields three bytes per four characters. |
| Codec.FromCharCodes | client.js:30 | `String.fromCharCode.apply(null, slice)` gives one char per byte. |
| Codec.Atob | client.js:36 | `atob` succeeds exactly when decoding succeeds, and yields a binary string whose char codes are the decoded bytes. |
| Codec.BinaryString | client.js:26-31 | Whatever the chunk size, the chunked loop yields one char per byte, and char `i` has code `u8[i]`. |
| Codec.StringToBinary | client.js:25-33 | The text sent for an update is the base64 of its bytes, and `atob` decodes it back to exactly those bytes. |
| Codec.BinaryToString | client.js:35-41 | The result is a new byte array holding exactly the decoded bytes, or the `atob` failure when the text is not base64. |
| Session.Outbound | client.js:51-54 | A change sends one `update_crdt` envelope if and only if its origin is local, the socket is open and a room is set. The envelope carries the current room and text that decodes to the update. |
| Session.NoEcho | client.js:59-61 | A remote change never produces an envelope. |
| Session.Replica.constructor | client.js:8 | `new Y.Doc()` starts with nothing under 'doc' and no update events. |
| Session.Replica.Set | client.js:67 | A transaction that stores `v` under 'doc' leaves `v` there and emits one update event with its origin. |
| Session.Replica.ApplyUpdate | client.js:60 | Applying an update merges it into the document and emits one update event with its origin. |
| Session.Client.constructor | client.js:3-9 | At load the socket is not open, and there is no client id, no room, and an empty replica. |
| Session.Client.SetSocketOpen | client.js:104-106 | The socket's open state follows the transport's events. |
| Session.Client.OnChange | client.js:51-56 | The listener appends to the sent envelopes exactly what `Outbound` says, and changes nothing else. |
| Session.Client.Commit | client.js:79 | A local transaction stores the document, records one local update, and forwards it as the echo gate decides. |
| Session.Client.UpdateFromServer | client.js:59-61 | Server text applies at most one update, with origin remote, and only when `atob` accepts it. Nothing is ever sent. |
| Session.Client.ApplyPatch | client.js:63-80 | A missing patch does nothing. A full replace stores exactly `v`. A path set stores `PatchResult`, or throws on a primitive document. A success is one local transaction; otherwise the document, the update events and the outbox are unchanged. |
| Session.Client.SendPatch | client.js:162-169 | With no room set the patch is refused and nothing changes. Otherwise it behaves as `ApplyPatch`. |
| Session.Client.DeleteKey | client.js:190-203 | An empty key is refused. Otherwise the result is `DeleteIn` on the split key. A refusal or a throw leaves the document, the update events and the outbox unchanged; a success is one local transaction. |
| Session.Client.HandleMessage | client.js:111-139 | `hello` changes only the client id, and `room_created` only the flag and the join queue. `full_state_crdt` swaps in a fresh replica, applies the snapshot as remote, and then sets the room. `remote_update_crdt` applies to the current replica and keeps the room. `error` and unknown types change nothing. No message sends an update. |
| Session.Client.JoinSnapshot | client.js:124-128 | The full-state branch decoding first: on valid text a fresh replica holds the snapshot and the room is set; on text `atob` rejects the replica and the room are as they were. |
| Session.Client.RoomUpdate | client.js:133-134 | A remote update tagged with its room is applied, as remote, exactly when that room is current and the text decodes; otherwise the replica is unchanged. Nothing is sent. |
| SessionFindings.RejectedSnapshotText | client.js:36 | `atob` rejects the one-character text "A". |
| SessionFindings.RejectedSnapshotAsWritten | client.js:124-128 | As written, a rejected snapshot leaves the client with no document while the old room stays set. |
| SessionFindings.RejectedSnapshotCorrected | client.js:124-128 | Decoding first, the same snapshot leaves the replica, its document and the room unchanged. |
| SessionFindings.LateUpdateAsWritten | client.js:124-134 | As written, after joining room "B" any later `remote_update_crdt` is merged into B's replica, including one broadcast for the room left behind: the replica records two remote events. |
| SessionFindings.LateUpdateCorrected | client.js:124-134 | With updates tagged by room, an update for "A" leaves B's replica holding exactly its snapshot, with its one event. |

## Left out

- The Yjs engine (`Y.Doc`, `transact`, `Y.applyUpdate`, update events) is a foreign library, so it is the `Engine` parameter. The model proves nothing about how updates merge, converge or repeat, and treats a malformed update as merging to some result rather than throwing.
- Session.Replica.ApplyUpdate, Session.Replica.Set: merge results and update bytes are modelled as functions of the visible document (and the update) only. In Yjs they also depend on the replica's item history, client id and clock: an update whose dependencies are missing is held pending and leaves the document as it was, while the same update on another history is integrated. The contracts therefore state a determinism the engine does not have; what they promise is only about when an update is applied, with which origin, and what is sent.
- The WebSocket transport and timers (`connectWS`, `waitForOpenThenSend`, client.js:102-109, 141-151) are I/O. `socketOpen` stands for the socket being open, and `queued` records what is handed to `waitForOpenThenSend`, without modelling when it is flushed.
- The DOM and the UI are left out: `showToast`, `RefreshUI`, the text fields, the clipboard and the download (client.js:11-23, 43-47, 171-188).
- The create-room and join-room buttons (client.js:153-160) are left out, because they only connect and queue messages through the transport.
- `generatePatch` (client.js:82-98) is left out. Turning input text into numbers, booleans or JSON and `isNaN`-based path coercion follow the JavaScript number grammar. A numeric path segment stands for its decimal key string.
- `JSON.parse` of the edit field and of incoming messages (client.js:108, 165-166) is left out. A patch reaches the model already parsed, as `Option<Edit>`, where `None` is a falsy `patch`. Only the two shapes `{full: v}` and `{path: [..keys], value: v}` are modelled. The other objects the edit field accepts are not:
  - a string `path` is walked character by character, like the array of its characters;
  - a number or boolean `path` has `length - 1` equal to NaN, so the loop is skipped and the value is stored under the key "undefined";
  - a path set without `value` stores `undefined`, which `Edit.SetPath`'s JSON value cannot express;
  - only a missing or null `path` (`{}`, `{"value": 1}`, `{"path": null}`) throws, at client.js:73.
- Session.Client.ApplyPatch, Session.Client.SendPatch and Patch.WalkSet do not cover these cases, which are excluded by precondition:
  - an empty path, which writes the key "undefined";
  - a `__proto__` segment;
  - a store into an array at a key that is not an index up to its length. Beyond the length it leaves holes. At `length` it truncates or extends the array, or throws a RangeError when the value is not a valid length. Any other key adds a named property that JSON drops.
- Session.Client.DeleteKey and Patch.WalkDelete do not cover deleting an existing array element, which leaves a hole JSON cannot hold, or a `__proto__` segment. Both are excluded by precondition.
- The delete button has no room check, while the send button refuses without a room (client.js:163, 190-203). A delete before joining commits to the local replica without a word to the user, and the next `full_state_crdt` discards it. `Session.Client.DeleteKey` follows the code.
- Session.Replica.ApplyUpdate always records exactly one update event. Yjs fires 'update' only when the transaction adds items or deletions, so a duplicate update, or one held entirely pending, fires none. No send depends on the difference, because the listener sends only local changes.
- Json.Json holds an object's members in a map, so their order is not modelled. JavaScript objects keep insertion order, with integer keys first, and that order shows in `JSON.stringify` at client.js:46 and 180. Only the display and the download depend on it.
- Json.Json uses unbounded array indices (JavaScript caps them at 2^32 - 2) and real numbers (no NaN, infinities or -0). Strings are sequences of code points, not UTF-16 units.
- Session.Client.HandleMessage treats `isCreator` as a plain flag that nothing reads. The variable is not declared in client.js, so the assignment could throw in strict mode before the join is queued.

## Findings

| source | as written | input that shows it | evidently intended | confidence | as-written member | corrected member |
|---|---|---|---|---|---|---|
| client.js:124-128 | The replica is replaced before `atob` decodes the snapshot, so a rejected text throws with an empty replica and the old room still set. The next local edit goes to that room from an empty document. | A client holding a document receives `{type: 'full_state_crdt', room, update: "A"}`. | Decode first; on rejected text keep the replica and the room. | medium, not executed; it needs the server to send malformed text | SessionFindings.RejectedSnapshotAsWritten | SessionFindings.RejectedSnapshotCorrected |
| client.js:133-134 | `remote_update_crdt` is applied to whatever replica is current, because the message names no room. An update broadcast for a room the client has just left is merged into the new room's document. | The client joins "B" while a `remote_update_crdt` for "A" is still in flight; it arrives after B's `full_state_crdt`. | Rooms are isolated: an update tagged for another room leaves the current replica unchanged. | low, not executed; it depends on the server's delivery order and needs the server to tag updates with their room | SessionFindings.LateUpdateAsWritten | SessionFindings.LateUpdateCorrected |
