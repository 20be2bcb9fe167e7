/** The client's session state and its handlers (client.js): the replica under
    `ydoc`/`ymap`, the globals `ws`, `clientId` and `currentRoom`, the 'update'
    listener that forwards local changes, the server-message dispatch, and the
    send-patch and delete-key handlers. */
module Session {
  import opened Wrappers
  import opened Json
  import opened Patch
  import Base64
  import Codec

  type Bytes = seq<Base64.byte>

  /** The origin tag a transaction or an applied update carries. */
  datatype Origin = Local | Remote

  /** The CRDT engine, seen from outside: what applying an update does to the
      document under 'doc', and the update bytes a change emits. Its merge algorithm is
      not part of this model; both are parameters, and both see only the visible
      document, not the replica's item history, client id or clock. */
  datatype Engine = Engine(
    merge: (Option<Json>, Bytes) -> Option<Json>,
    delta: (Option<Json>, Option<Json>) -> Bytes)

  /** One 'update' event: the update bytes and the origin tag. */
  datatype Change = Change(update: Bytes, origin: Origin)

  /** What the client hands to the transport: `{type: 'update_crdt', room, update}`
      and `{type: 'join', room}`. */
  datatype Envelope = UpdateCrdt(room: string, update: string) | JoinRoom(room: string)

  /** A message from the server, by its `type` field. */
  datatype Message =
    | Hello(clientId: Option<string>)
    | RoomCreated(roomId: string)
    | FullStateCrdt(room: Option<string>, update: string)
    | RemoteUpdateCrdt(update: string)
    | ServerError(message: string)
    | Other

  /** How a handler ended: done, or which refusal or exception stopped it. */
  datatype Report = Done | NoPatch | NotInRoom | NoKey | BadPath | TypeError

  /** `currentRoom` is truthy: set, and not the empty string. */
  predicate RoomSet(room: Option<string>) {
    room.Some? && room.value != ""
  }

  /** The guard of the 'update' listener (client.js:52). */
  predicate ShouldSend(origin: Origin, open: bool, room: Option<string>) {
    origin == Local && open && RoomSet(room)
  }

  /** The envelopes the 'update' listener sends for change `c`: one, tagged with the
      current room and carrying base64 text that decodes back to the update, when the
      change is local, the socket is open and a room is set; none otherwise. */
  function Outbound(c: Change, open: bool, room: Option<string>): (out: seq<Envelope>)
    ensures |out| <= 1
    ensures out != [] <==> c.origin == Local && open && RoomSet(room)
    ensures out != [] ==> out[0].UpdateCrdt? && Some(out[0].room) == room &&
                          Base64.Decode(out[0].update) == Some(c.update)
  {
    Base64.DecodeEncode(c.update);
    if ShouldSend(c.origin, open, room) then [UpdateCrdt(room.value, Base64.Encode(c.update))] else []
  }

  /** A remote change is never sent back, whatever the socket and the room. */
  lemma NoEcho(update: Bytes, open: bool, room: Option<string>)
    ensures Outbound(Change(update, Remote), open, room) == []
  {
  }

  /** A `Y.Doc` with its root map: the value under 'doc' and every 'update' event it
      has emitted. */
  class Replica {
    const engine: Engine
    var doc: Option<Json>
    var changes: seq<Change>

    /** `new Y.Doc()`: nothing under 'doc' yet. */
    constructor (engine: Engine)
      ensures this.engine == engine && doc == None && changes == []
    {
      this.engine := engine;
      doc := None;
      changes := [];
    }

    /** `ydoc.transact(() => { ymap.set('doc', v); }, origin)`: one transaction,
        one 'update' event. */
    method Set(v: Json, origin: Origin) returns (c: Change)
      modifies this
      ensures doc == Some(v)
      ensures c == Change(engine.delta(old(doc), doc), origin)
      ensures changes == old(changes) + [c]
    {
      c := Change(engine.delta(doc, Some(v)), origin);
      doc := Some(v);
      changes := changes + [c];
    }

    /** `Y.applyUpdate(ydoc, u, origin)`. */
    method ApplyUpdate(u: Bytes, origin: Origin) returns (c: Change)
      modifies this
      ensures doc == engine.merge(old(doc), u)
      ensures c == Change(engine.delta(old(doc), doc), origin)
      ensures changes == old(changes) + [c]
    {
      var d := engine.merge(doc, u);
      c := Change(engine.delta(doc, d), origin);
      doc := d;
      changes := changes + [c];
    }
  }

  /** The module-level state of client.js. `socketOpen` stands for
      `ws && ws.readyState === WebSocket.OPEN`; `sent` is every envelope passed to
      `ws.send` and `queued` every one handed to `waitForOpenThenSend`, in order. */
  class Client {
    const engine: Engine
    var socketOpen: bool
    var clientId: Option<string>
    var currentRoom: Option<string>
    var isCreator: bool
    var replica: Replica
    var sent: seq<Envelope>
    var queued: seq<Envelope>

    ghost predicate Valid()
      reads this
    {
      replica.engine == engine
    }

    /** The state when the module has loaded (client.js:3-9, 205). */
    constructor (engine: Engine)
      ensures Valid() && fresh(replica)
      ensures this.engine == engine && !socketOpen && clientId == None && currentRoom == None && !isCreator
      ensures replica.doc == None && replica.changes == [] && sent == [] && queued == []
    {
      this.engine := engine;
      socketOpen := false;
      clientId := None;
      currentRoom := None;
      isCreator := false;
      replica := new Replica(engine);
      sent := [];
      queued := [];
    }

    /** The transport opened or closed (the socket's open/close events). */
    method SetSocketOpen(open: bool)
      modifies this`socketOpen
      ensures socketOpen == open
    {
      socketOpen := open;
    }

    /** The 'update' listener ChangeApplier registers (client.js:51-56): forwards a
        change only when it is local, the socket is open and a room is set. */
    method OnChange(c: Change)
      modifies this`sent
      ensures sent == old(sent) + Outbound(c, socketOpen, currentRoom)
    {
      if c.origin == Local && socketOpen && RoomSet(currentRoom) {
        var text := Codec.StringToBinary(c.update);
        sent := sent + [UpdateCrdt(currentRoom.value, text)];
      }
    }

    /** `ydoc.transact(() => { ymap.set('doc', v); }, 'local')` with the listener
        firing on it. */
    method Commit(v: Json)
      requires Valid()
      modifies this`sent, replica
      ensures replica.doc == Some(v)
      ensures replica.changes == old(replica.changes) + [Change(engine.delta(old(replica.doc), Some(v)), Local)]
      ensures sent == old(sent) + Outbound(Change(engine.delta(old(replica.doc), Some(v)), Local), socketOpen, currentRoom)
    {
      var c := replica.Set(v, Local);
      OnChange(c);
    }

    /** UpdateFromServer (client.js:59-61): decode, then apply as 'remote'. Returns
        false where `atob` throws, in which case nothing is applied. Never sends. */
    method UpdateFromServer(b64: string) returns (ok: bool)
      requires Valid()
      modifies this`sent, replica
      ensures ok <==> Base64.Decode(b64).Some?
      ensures ok ==> replica.doc == engine.merge(old(replica.doc), Base64.Decode(b64).value) &&
                     replica.changes == old(replica.changes) + [Change(engine.delta(old(replica.doc), replica.doc), Remote)]
      ensures !ok ==> replica.doc == old(replica.doc) && replica.changes == old(replica.changes)
      ensures sent == old(sent)
    {
      var bytes := Codec.BinaryToString(b64);
      if bytes.None? {
        return false;
      }
      var c := replica.ApplyUpdate(bytes.value[..], Remote);
      OnChange(c);
      ok := true;
    }

    /** What ApplyPatch did: on Done the patched document was written in one local
        transaction and forwarded as the listener decides; on anything else the document,
        the replica's events and the sent envelopes are as they were. */
    twostate predicate PatchEffect(report: Report, written: Json)
      reads this, replica
    {
      if report == Done then
        replica.doc == Some(written) &&
        replica.changes == old(replica.changes) + [Change(engine.delta(old(replica.doc), Some(written)), Local)] &&
        sent == old(sent) + Outbound(Change(engine.delta(old(replica.doc), Some(written)), Local), socketOpen, currentRoom)
      else
        replica.doc == old(replica.doc) && replica.changes == old(replica.changes) && sent == old(sent)
    }

    /** ApplyPatch (client.js:63-80). A missing patch does nothing; `{full: v}` writes
        exactly `v`; `{path, value}` writes the stored document (or `{}`) with the value
        set at the path, or throws on a primitive document. */
    method ApplyPatch(p: Option<Edit>) returns (report: Report)
      requires Valid()
      requires p.Some? ==> PatchDefined(replica.doc, p.value)
      modifies this`sent, replica
      ensures p.None? ==> report == NoPatch
      ensures p.Some? ==> report == (if PatchResult(old(replica.doc), p.value).Written? then Done else TypeError)
      ensures p.Some? && p.value.Full? ==> report == Done && replica.doc == Some(p.value.doc)
      ensures PatchEffect(report, if report == Done then PatchResult(old(replica.doc), p.value).doc else Empty)
    {
      if p.None? {
        return NoPatch;
      }
      match p.value {
        case Full(v) =>
          Commit(v);
          report := Done;
        case SetPath(path, v) =>
          var root := StartValue(replica.doc);
          if !IsObject(root) {
            return TypeError;
          }
          var cur := WalkSet(root, path, v);
          Commit(cur);
          report := Done;
      }
    }

    /** The sendPatch handler (client.js:162-169): refuses with "Not in a room" while
        `currentRoom` is not set, and applies the patch otherwise. */
    method SendPatch(p: Option<Edit>) returns (report: Report)
      requires Valid()
      requires RoomSet(currentRoom) && p.Some? ==> PatchDefined(replica.doc, p.value)
      modifies this`sent, replica
      ensures !RoomSet(currentRoom) ==> report == NotInRoom
      ensures RoomSet(currentRoom) && p.None? ==> report == NoPatch
      ensures RoomSet(currentRoom) && p.Some? ==>
                report == (if PatchResult(old(replica.doc), p.value).Written? then Done else TypeError)
      ensures PatchEffect(report, if report == Done then PatchResult(old(replica.doc), p.value).doc else Empty)
    {
      if !RoomSet(currentRoom) {
        return NotInRoom;
      }
      report := ApplyPatch(p);
    }

    /** The deleteKeyBtn handler (client.js:190-203) on the trimmed key: refuses an
        empty key, splits it on '.', and refuses with "Invalid path" when an
        intermediate is not an object; otherwise writes the copy with the final key
        deleted in one local transaction. */
    method DeleteKey(key: string) returns (report: Report)
      requires Valid()
      requires key != "" ==> DeleteDefined(StartValue(replica.doc), Split(key))
      modifies this`sent, replica
      ensures key == "" ==> report == NoKey
      ensures key != "" ==> report == match DeleteIn(StartValue(old(replica.doc)), Split(key))
                                       case Written(_) => Done
                                       case InvalidPath => BadPath
                                       case Thrown => TypeError
      ensures PatchEffect(report, if report == Done then DeleteIn(StartValue(old(replica.doc)), Split(key)).doc else Empty)
    {
      if key == "" {
        return NoKey;
      }
      var path := Split(key);
      var cur := StartValue(replica.doc);
      var r := WalkDelete(cur, path);
      match r {
        case InvalidPath =>
          report := BadPath;
        case Thrown =>
          report := TypeError;
        case Written(d) =>
          Commit(d);
          report := Done;
      }
    }

    /** The full_state_crdt branch as it is meant to behave: the text is decoded
        before the replica is replaced, so a snapshot `atob` rejects leaves the
        replica and the room as they were. */
    method JoinSnapshot(room: Option<string>, update: string) returns (ok: bool)
      requires Valid()
      modifies this`replica, this`currentRoom
      ensures Valid()
      ensures ok <==> Base64.Decode(update).Some?
      ensures ok ==> fresh(replica) && currentRoom == room &&
                     replica.doc == engine.merge(None, Base64.Decode(update).value) &&
                     replica.changes == [Change(engine.delta(None, replica.doc), Remote)]
      ensures !ok ==> replica == old(replica) && currentRoom == old(currentRoom)
    {
      var bytes := Codec.BinaryToString(update);
      if bytes.None? {
        return false;
      }
      var r := new Replica(engine);
      var c := r.ApplyUpdate(bytes.value[..], Remote);
      replica := r;
      currentRoom := room;
      ok := true;
    }

    /** A remote update as room isolation asks for it: tagged with the room it was
        broadcast for, and applied only while that room is the current one. */
    method RoomUpdate(room: string, update: string) returns (applied: bool)
      requires Valid()
      modifies this`sent, replica
      ensures applied <==> currentRoom == Some(room) && Base64.Decode(update).Some?
      ensures applied ==> replica.doc == engine.merge(old(replica.doc), Base64.Decode(update).value) &&
                          replica.changes == old(replica.changes) + [Change(engine.delta(old(replica.doc), replica.doc), Remote)]
      ensures !applied ==> replica.doc == old(replica.doc) && replica.changes == old(replica.changes)
      ensures sent == old(sent)
    {
      if currentRoom != Some(room) {
        return false;
      }
      applied := UpdateFromServer(update);
    }

    /** handleMessage (client.js:111-139). */
    method HandleMessage(msg: Message)
      requires Valid()
      modifies this, replica
      ensures Valid() && socketOpen == old(socketOpen) && sent == old(sent)
      ensures old(replica).doc == old(replica.doc) || msg.RemoteUpdateCrdt?
      ensures old(replica).changes == old(replica.changes) || msg.RemoteUpdateCrdt?
      // hello: only clientId changes
      ensures msg.Hello? ==>
                clientId == msg.clientId && currentRoom == old(currentRoom) && replica == old(replica) &&
                isCreator == old(isCreator) && queued == old(queued)
      // room_created: the flag is set and a join of the new room is queued
      ensures msg.RoomCreated? ==>
                isCreator && queued == old(queued) + [JoinRoom(msg.roomId)] &&
                clientId == old(clientId) && currentRoom == old(currentRoom) && replica == old(replica)
      // full_state_crdt: a fresh replica gets the snapshot as 'remote', then the room is set
      ensures msg.FullStateCrdt? ==>
                fresh(replica) && clientId == old(clientId) && isCreator == old(isCreator) && queued == old(queued) &&
                (Base64.Decode(msg.update).Some? ==>
                   replica.doc == engine.merge(None, Base64.Decode(msg.update).value) &&
                   replica.changes == [Change(engine.delta(None, replica.doc), Remote)] &&
                   currentRoom == msg.room) &&
                (Base64.Decode(msg.update).None? ==>
                   replica.doc == None && replica.changes == [] && currentRoom == old(currentRoom))
      // remote_update_crdt: applied to the current replica as 'remote'; the room stays
      ensures msg.RemoteUpdateCrdt? ==>
                replica == old(replica) && currentRoom == old(currentRoom) && clientId == old(clientId) &&
                isCreator == old(isCreator) && queued == old(queued) &&
                (Base64.Decode(msg.update).Some? ==>
                   replica.doc == engine.merge(old(replica.doc), Base64.Decode(msg.update).value) &&
                   replica.changes == old(replica.changes) + [Change(engine.delta(old(replica.doc), replica.doc), Remote)]) &&
                (Base64.Decode(msg.update).None? ==>
                   replica.doc == old(replica.doc) && replica.changes == old(replica.changes))
      // error, or any other type: nothing changes
      ensures msg.ServerError? || msg.Other? ==>
                clientId == old(clientId) && currentRoom == old(currentRoom) && replica == old(replica) &&
                isCreator == old(isCreator) && queued == old(queued)
    {
      match msg {
        case Hello(id) =>
          clientId := id;
        case RoomCreated(roomId) =>
          isCreator := true;
          queued := queued + [JoinRoom(roomId)];
        case FullStateCrdt(room, update) =>
          replica := new Replica(engine);
          var ok := UpdateFromServer(update);
          if ok {
            currentRoom := room;
          }
        case RemoteUpdateCrdt(update) =>
          var ok := UpdateFromServer(update);
        case ServerError(_) =>
        case Other =>
      }
    }
  }
}
