/** Two places where handleMessage (client.js:124-137) does not do what the session
    is meant to do: each scenario runs the handler as written, and beside it the
    corrected handler on the same input. */
module SessionFindings {
  import opened Wrappers
  import Base64
  import opened Session

  /** "A" is one character long, which no base64 text can be: `atob` throws on it. */
  lemma RejectedSnapshotText()
    ensures Base64.Decode("A").None?
  {
    assert Base64.StripWhitespace("A") == "A";
    assert Base64.Normalized("A") == "A";
  }

  /** As written, a snapshot whose text `atob` rejects still discards the replica:
      whatever document the client held is gone, while the old room stays set, so the
      next local edit is sent to that room from an empty document. */
  method RejectedSnapshotAsWritten(c: Client, room: Option<string>)
    requires c.Valid() && c.replica.doc.Some?
    modifies c, c.replica
    ensures c.replica.doc == None && c.replica.doc != old(c.replica.doc)
    ensures c.currentRoom == old(c.currentRoom)
  {
    RejectedSnapshotText();
    c.HandleMessage(FullStateCrdt(room, "A"));
  }

  /** Decoding first, the same snapshot leaves the replica, its document and the room
      as they were. */
  method RejectedSnapshotCorrected(c: Client, room: Option<string>)
    requires c.Valid()
    modifies c
    ensures c.replica == old(c.replica) && c.replica.doc == old(c.replica.doc)
    ensures c.currentRoom == old(c.currentRoom)
  {
    RejectedSnapshotText();
    var ok := c.JoinSnapshot(room, "A");
  }

  /** As written, after the client has joined room "B" an update the server broadcast
      for the room it left is still merged into B's replica: `remote_update_crdt` names
      no room, and the handler applies it to whatever replica is current. */
  method LateUpdateAsWritten(c: Client, snapshot: string, u: string)
    requires c.Valid() && Base64.Decode(snapshot).Some? && Base64.Decode(u).Some?
    modifies c, c.replica
    ensures c.currentRoom == Some("B")
    ensures c.replica.doc == c.engine.merge(c.engine.merge(None, Base64.Decode(snapshot).value), Base64.Decode(u).value)
    ensures |c.replica.changes| == 2
  {
    c.HandleMessage(FullStateCrdt(Some("B"), snapshot));
    c.HandleMessage(RemoteUpdateCrdt(u));
  }

  /** With the update tagged for room "A", the replica of "B" keeps exactly the
      snapshot. */
  method LateUpdateCorrected(c: Client, snapshot: string, u: string)
    requires c.Valid() && Base64.Decode(snapshot).Some?
    modifies c, c.replica
    ensures c.currentRoom == Some("B")
    ensures c.replica.doc == c.engine.merge(None, Base64.Decode(snapshot).value)
    ensures |c.replica.changes| == 1
  {
    c.HandleMessage(FullStateCrdt(Some("B"), snapshot));
    var applied := c.RoomUpdate("A", u);
    assert !applied;
  }
}
