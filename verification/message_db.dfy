/**
 * The message-table deletion the event handlers call. `deleteMessageWithEvent`
 * is called by `controleur/eventController.js` but is not defined in
 * `modele/messageDB.js`; it is given the meaning its name and the matching
 * statement in `deleteEvent` give it: remove the event's messages.
 */
module MessageDB {
  import opened Tables

  /** `DELETE FROM message WHERE eventid = $1`. */
  function DeleteMessageWithEvent(db: Db, eventId: int): (r: Db)
    ensures r == db.(messages := r.messages)
    ensures forall m :: m in r.messages <==> m in db.messages && m.eventId != eventId
  {
    DeleteSpec(db.messages, (m: MessageRow) => m.eventId == eventId);
    db.(messages := Delete(db.messages, (m: MessageRow) => m.eventId == eventId))
  }
}
