/**
 * How the service's edit reaches the store's update. JavaScript binds
 * arguments by position and leaves a missing one `undefined`; the store's
 * update takes (userId, roomId, bookingId). The database client rejects an
 * update whose id filter is not a number, or whose data holds a value that
 * is not a number; an `undefined` data field leaves that column unchanged.
 */
module EditArgumentBinding {
  import opened Outcomes

  /** The argument values that occur in the call. */
  datatype JsValue = Undefined | Number(n: int) | EditFields(id: int, roomId: int, userId: int)

  /**
   * What the store's update receives when the query is accepted: the id of
   * the row, and for each data column the new value, or None to leave it.
   */
  datatype UpdateArgs = UpdateArgs(userId: Option<int>, roomId: Option<int>, bookingId: int)

  /** Positional binding of an argument list to the parameters (userId, roomId, bookingId). */
  function BindUpdateParams(args: seq<JsValue>): (p: (JsValue, JsValue, JsValue))
  {
    var at := (i: nat) => if i < |args| then args[i] else Undefined;
    (at(0), at(1), at(2))
  }

  /** A data column's value: a number sets it, `undefined` leaves it, anything else is rejected. */
  function DataField(v: JsValue): (r: Option<Option<int>>)
  {
    match v
    case Number(n) => Some(Some(n))
    case Undefined => Some(None)
    case EditFields(_, _, _) => None
  }

  /**
   * The database client accepts the update when the id filter is a number
   * and each data field is a number or `undefined`.
   */
  function ValidateUpdate(userId: JsValue, roomId: JsValue, bookingId: JsValue): (r: Option<UpdateArgs>)
  {
    var u := DataField(userId);
    var r := DataField(roomId);
    if bookingId.Number? && u.Some? && r.Some? then
      Some(UpdateArgs(u.value, r.value, bookingId.n))
    else
      None
  }

  /** The service's call as written: one object `{ id, roomId, userId }`. */
  function EditCallAsWritten(id: int, roomId: int, userId: int): (r: Option<UpdateArgs>)
  {
    var (u, r, b) := BindUpdateParams([EditFields(id, roomId, userId)]);
    ValidateUpdate(u, r, b)
  }

  /** The call as intended: `(userId, roomId, id)` in the order of the parameters. */
  function EditCallIntended(id: int, roomId: int, userId: int): (r: Option<UpdateArgs>)
  {
    var (u, r, b) := BindUpdateParams([Number(userId), Number(roomId), Number(id)]);
    ValidateUpdate(u, r, b)
  }

  /**
   * As written, the object lands in `userId` and `roomId`, `bookingId` are
   * undefined: the id filter is missing, so every edit is rejected before
   * any row is touched.
   */
  lemma AsWrittenEditIsRejected(id: int, roomId: int, userId: int)
    ensures BindUpdateParams([EditFields(id, roomId, userId)]).2 == Undefined
    ensures EditCallAsWritten(id, roomId, userId) == None
  {
  }

  /** As intended, the update receives booking `id` with the new roomId and the owner's userId. */
  lemma IntendedEditReachesUpdate(id: int, roomId: int, userId: int)
    ensures EditCallIntended(id, roomId, userId) == Some(UpdateArgs(Some(userId), Some(roomId), id))
  {
  }

  /**
   * With the call in parameter order but no roomId in the request body, the
   * update is accepted and leaves the booking's room as it was.
   */
  lemma MissingRoomIdLeavesRoom(id: int, userId: int)
    ensures ValidateUpdate(Number(userId), Undefined, Number(id)) == Some(UpdateArgs(Some(userId), None, id))
  {
  }
}
