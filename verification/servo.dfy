/** `servoController`: validate, command the lock's servo, remember the
    angle, and log the command against the requesting user.  The module-level
    `currentAngle` is the database's `servoAngle`, 0 initially. */
module Servo {
  import opened Wrappers
  import opened Js
  import opened Store

  datatype Body =
    | Failed(error: string)
    | Commanded(message: string, angle: int)
    | Status(angle: int)

  const ActionPrefix := "Set servo angle to "

  /** The `action` text of a servo log entry. */
  function ServoAction(angle: int): (s: string)
    ensures |s| > |ActionPrefix| && s[..|ActionPrefix|] == ActionPrefix
  {
    ActionPrefix + IntText(angle)
  }

  /** The logged action names the angle: reading the text after the prefix
      gives it back. */
  lemma ServoActionReadsBack(angle: int)
    ensures NumericText(ServoAction(angle)[|ActionPrefix|..]) == Some(angle)
  {
    assert ServoAction(angle)[|ActionPrefix|..] == IntText(angle);
    IntTextReadsBack(angle);
  }

  /** `updateServoAngle`.  `deviceOk` is the outcome of the HTTP call to the
      ESP32.  A non-integer angle or user id gives 400, a failed device call
      500, both with no change.  After the device call the angle is stored
      before the user is looked up: an unknown user gives 404 with the angle
      already changed and nothing logged.  Success logs one granted 'REMOTE'
      entry for that user and finger.  Any integer angle is accepted. */
  function UpdateServoAngle(db: Db, angle: Value, userId: Value, deviceOk: bool, now: int): (r: Reply<Body>)
    ensures r.status in {200, 400, 404, 500}
    ensures r.status == 400 <==> !IsInteger(angle) || !IsInteger(userId)
    ensures r.status == 500 <==> IsInteger(angle) && IsInteger(userId) && !deviceOk
    ensures r.status in {400, 500} ==> r.db == db
    ensures r.status in {200, 404} ==> r.db.servoAngle == angle.n
    ensures r.status == 404 <==>
      IsInteger(angle) && IsInteger(userId) && deviceOk && UserById(db.users, userId.n).None?
    ensures r.status == 404 ==> r.db == db.(servoAngle := angle.n)
    ensures r.status == 200 ==>
      var u := UserById(db.users, userId.n).value;
      && u.id == userId.n
      && r.db == AppendLog(db.(servoAngle := angle.n), Some(u.id), Some(u.fingerId), ServoAction(angle.n), "REMOTE", Some("granted"), now)
      && r.body == Commanded("Servo angle set to " + IntText(angle.n) + " by " + u.firstName, angle.n)
  {
    if !IsInteger(angle) || !IsInteger(userId) then
      Reply(400, Failed("Invalid input: angle and userID must be integers"), db)
    else if !deviceOk then
      Reply(500, Failed("Failed to update angle"), db)
    else
      var db1 := db.(servoAngle := angle.n);
      match UserById(db.users, userId.n)
      case None => Reply(404, Failed("User not found"), db1)
      case Some(u) =>
        Reply(200, Commanded("Servo angle set to " + IntText(angle.n) + " by " + u.firstName, angle.n),
              AppendLog(db1, Some(u.id), Some(u.fingerId), ServoAction(angle.n), "REMOTE", Some("granted"), now))
  }

  /** `getServoStatus`. */
  function GetServoStatus(db: Db): (r: Reply<Body>)
    ensures r.status == 200 && r.db == db && r.body == Status(db.servoAngle)
  {
    Reply(200, Status(db.servoAngle), db)
  }

  /** Before any command the reported angle is 0. */
  lemma InitialAngle()
    ensures GetServoStatus(Init()).body == Status(0)
  {
  }

  /** Whenever the device accepted the command, the status reports the new
      angle, even if the user lookup then failed; a refused command leaves the
      reported angle as it was. */
  lemma StatusAfterCommand(db: Db, angle: Value, userId: Value, deviceOk: bool, now: int)
    ensures var r := UpdateServoAngle(db, angle, userId, deviceOk, now);
      && (r.status in {200, 404} ==> GetServoStatus(r.db).body == Status(angle.n))
      && (r.status in {400, 500} ==> GetServoStatus(r.db).body == GetServoStatus(db).body)
  {
  }

  /** A successful command's log entry carries the commanded angle in its
      action text. */
  lemma LoggedAngleReadsBack(db: Db, angle: Value, userId: Value, deviceOk: bool, now: int)
    requires UpdateServoAngle(db, angle, userId, deviceOk, now).status == 200
    ensures var log := UpdateServoAngle(db, angle, userId, deviceOk, now).db.log;
      && |log| == |db.log| + 1
      && NumericText(log[|db.log|].action[|ActionPrefix|..]) == Some(angle.n)
  {
    ServoActionReadsBack(angle.n);
  }
}
