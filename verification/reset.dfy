/** `resetController`: verify a phone number, then replace the password of
    the users registered with it. */
module Reset {
  import opened Wrappers
  import opened Store
  import Users

  datatype Body = Message(text: string)

  /** `requestPasswordReset`: 400 without a phone, 404 for an unknown one,
      otherwise a go-ahead; never writes. */
  function RequestPasswordReset(db: Db, phone: Option<string>): (r: Reply<Body>)
    ensures r.db == db
    ensures r.status == 400 <==> !Users.Given(phone)
    ensures r.status == 404 <==> Users.Given(phone) && !HasPhone(db.users, phone.value)
    ensures r.status == 200 <==> Users.Given(phone) && HasPhone(db.users, phone.value)
  {
    if !Users.Given(phone) then Reply(400, Message("Phone number is required"), db)
    else if !HasPhone(db.users, phone.value) then Reply(404, Message("Phone number not found"), db)
    else Reply(200, Message("Phone number verified. Proceed to reset password."), db)
  }

  function Rehash(users: seq<User>, phone: string, secret: string): (r: seq<User>)
    ensures |r| == |users|
    ensures forall i :: 0 <= i < |users| ==>
      r[i] == if users[i].phone == phone then users[i].(password := Hash(secret)) else users[i]
  {
    seq(|users|, i requires 0 <= i < |users| =>
      if users[i].phone == phone then users[i].(password := Hash(secret)) else users[i])
  }

  /** `resetPassword`: 400 without a phone or new password, 404 for an unknown
      phone; otherwise every user with that phone gets the new password and
      nothing else changes. */
  function ResetPassword(db: Db, phone: Option<string>, newPassword: Option<string>): (r: Reply<Body>)
    ensures r.status in {200, 400, 404}
    ensures r.status == 400 <==> !Users.Given(phone) || !Users.Given(newPassword)
    ensures r.status == 404 <==> r.status != 400 && !HasPhone(db.users, phone.value)
    ensures r.status != 200 ==> r.db == db
    ensures r.status == 200 ==>
      && r.db == db.(users := r.db.users)
      && |r.db.users| == |db.users|
      && forall i :: 0 <= i < |db.users| ==>
           && r.db.users[i] == db.users[i].(password := r.db.users[i].password)
           && (r.db.users[i].password == if db.users[i].phone == phone.value then Hash(newPassword.value) else db.users[i].password)
  {
    if !Users.Given(phone) || !Users.Given(newPassword) then
      Reply(400, Message("Phone and new password are required"), db)
    else if !HasPhone(db.users, phone.value) then
      Reply(404, Message("Phone number not found"), db)
    else
      Reply(200, Message("Password reset successfully"), db.(users := Rehash(db.users, phone.value, newPassword.value)))
  }

  /** A reset changes no finger id or phone, so the registry stays unique. */
  lemma ResetKeepsUnique(db: Db, phone: Option<string>, newPassword: Option<string>)
    requires Unique(db.users) && Wf(db)
    ensures Unique(ResetPassword(db, phone, newPassword).db.users)
    ensures Wf(ResetPassword(db, phone, newPassword).db)
  {
    var r := ResetPassword(db, phone, newPassword);
    if r.status == 200 {
      assert forall i :: 0 <= i < |db.users| ==>
        r.db.users[i].fingerId == db.users[i].fingerId && r.db.users[i].phone == db.users[i].phone && r.db.users[i].id == db.users[i].id;
    }
  }
}
