/** The user registry of `userController`: lookups, the latest finger id,
    registration, update and deletion, with the uniqueness of finger ids
    and phone numbers that the 409 checks maintain. */
module Users {
  import opened Wrappers
  import opened Js
  import opened Store

  /** A text body field: present (possibly empty) or absent. */
  predicate Given(f: Option<string>) {
    f.Some? && f.value != ""
  }

  datatype Body =
    | Message(text: string)
    | Row(user: User)
    | Profile(view: UserView)
    | Latest(id: Option<int>)

  /** The finger id a path or body value denotes once it passes the
      `!id || isNaN(id)` guard; None when the guard rejects it. */
  function FingerKey(v: Value): (k: Option<int>)
    ensures k.Some? <==> Truthy(v) && !IsNaN(v)
    ensures k.Some? ==> k == ToNumber(v) && k == SqlInt(v)
  {
    if Truthy(v) && !IsNaN(v) then
      SqlAgreesWithNumber(v);
      ToNumber(v)
    else None
  }

  /** A '+'-signed id passes the guard and names the same finger as the
      plain digits. */
  lemma SignedIdAccepted(n: nat)
    ensures FingerKey(Str("+" + Digits(n))) == Some(n)
    ensures FingerKey(Str(Digits(n))) == Some(n)
  {
    NumberReadsPlus(n);
  }

  /** `getUserByFingerId`: the whole first row with that finger id. */
  function GetUserByFingerId(db: Db, id: string): (r: Reply<Body>)
    ensures r.db == db && r.status in {200, 400, 404}
    ensures r.status == 400 <==> FingerKey(Str(id)).None?
    ensures r.status == 404 <==> FingerKey(Str(id)).Some? && !HasFinger(db.users, FingerKey(Str(id)).value)
    ensures r.status == 200 ==>
      r.body.Row? && r.body.user in db.users && r.body.user.fingerId == FingerKey(Str(id)).value
  {
    match FingerKey(Str(id))
    case None => Reply(400, Message("Invalid fingerprint ID"), db)
    case Some(k) =>
      match UserByFinger(db.users, k)
      case None => Reply(404, Message("User not found"), db)
      case Some(u) => Reply(200, Row(u), db)
  }

  /** `getUserByPhone`: the first row with that phone, password removed. */
  function GetUserByPhone(db: Db, phone: string): (r: Reply<Body>)
    ensures r.db == db && r.status in {200, 400, 404}
    ensures r.status == 400 <==> phone == ""
    ensures r.status == 404 <==> phone != "" && !HasPhone(db.users, phone)
    ensures r.status == 200 ==>
      r.body.Profile? && exists u :: u in db.users && u.phone == phone && r.body.view == ViewOf(u)
  {
    if phone == "" then Reply(400, Message("Phone number is required"), db)
    else
      match UserByPhone(db.users, phone)
      case None => Reply(404, Message("User not found"), db)
      case Some(u) => Reply(200, Profile(ViewOf(u)), db)
  }

  /** The greatest finger id in the table, if any. */
  function MaxFinger(users: seq<User>): (m: Option<int>)
    ensures m.None? <==> |users| == 0
    ensures m.Some? ==> HasFinger(users, m.value) && forall i :: 0 <= i < |users| ==> users[i].fingerId <= m.value
  {
    if |users| == 0 then None
    else
      match MaxFinger(users[1..])
      case None => Some(users[0].fingerId)
      case Some(k) =>
        assert forall i :: 1 <= i < |users| ==> users[i] == users[1..][i - 1];
        if users[0].fingerId >= k then Some(users[0].fingerId)
        else
          assert HasFinger(users[1..], k);
          Some(k)
  }

  /** `getLatestFinger`: `ORDER BY finger_id DESC LIMIT 1`, then `|| null`,
      so a greatest finger id of 0 also reads as null. */
  function GetLatestFinger(db: Db): (r: Reply<Body>)
    ensures r.db == db && r.status == 200 && r.body.Latest?
    ensures r.body.id.Some? ==>
      && r.body.id.value != 0
      && HasFinger(db.users, r.body.id.value)
      && forall i :: 0 <= i < |db.users| ==> db.users[i].fingerId <= r.body.id.value
    ensures r.body.id.None? ==> forall i :: 0 <= i < |db.users| ==> db.users[i].fingerId <= 0
    ensures r.body.id.None? ==> |db.users| == 0 || HasFinger(db.users, 0)
  {
    match MaxFinger(db.users)
    case None => Reply(200, Latest(None), db)
    case Some(k) => Reply(200, Latest(if k == 0 then None else Some(k)), db)
  }

  datatype RegisterBody = RegisterBody(
    fingerId: Value,
    firstName: Option<string>,
    lastName: Option<string>,
    phone: Option<string>,
    password: Option<string>)

  predicate Complete(b: RegisterBody) {
    Truthy(b.fingerId) && Given(b.firstName) && Given(b.lastName) && Given(b.phone) && Given(b.password)
  }

  /** The row `registerUser` inserts.  Columns the INSERT does not list take
      the schema's defaults, which are not part of the source: taken here as
      active, not admin, not logged in. */
  function NewUser(db: Db, k: int, b: RegisterBody): User
    requires Complete(b)
  {
    User(db.nextUser, k, b.firstName.value, b.lastName.value, b.phone.value, Hash(b.password.value), true, false, false)
  }

  /** `registerUser`: 400 for a missing field or a non-numeric finger id, 409
      when the finger id or the phone is taken (the message names the finger id
      whenever it clashes), else exactly one new row and 201. */
  function RegisterUser(db: Db, b: RegisterBody): (r: Reply<Body>)
    ensures r.status in {201, 400, 409}
    ensures r.status == 400 <==> !Complete(b) || IsNaN(b.fingerId)
    ensures r.status == 409 <==>
      && Complete(b) && !IsNaN(b.fingerId)
      && (HasFinger(db.users, ToNumber(b.fingerId).value) || HasPhone(db.users, b.phone.value))
    ensures r.status == 409 ==> (r.body == Message("Fingerprint already registered")
      <==> HasFinger(db.users, ToNumber(b.fingerId).value))
    ensures r.status != 201 ==> r.db == db
    ensures r.status == 201 ==> r.db == db.(users := db.users + [NewUser(db, ToNumber(b.fingerId).value, b)], nextUser := db.nextUser + 1)
  {
    if !Complete(b) then Reply(400, Message("All fields are required"), db)
    else if IsNaN(b.fingerId) then Reply(400, Message("Fingerprint ID must be a number"), db)
    else
      var k := FingerKey(b.fingerId).value;
      var phone := b.phone.value;
      var existing := Filter(db.users, (u: User) => u.fingerId == k || u.phone == phone);
      if |existing| > 0 then
        var fingerClash := exists u :: u in existing && u.fingerId == k;
        assert fingerClash <==> HasFinger(db.users, k) by {
          if HasFinger(db.users, k) {
            var i :| 0 <= i < |db.users| && db.users[i].fingerId == k;
            assert db.users[i] in existing;
          }
        }
        assert HasFinger(db.users, k) || HasPhone(db.users, phone) by {
          var u := existing[0];
          assert u in db.users;
        }
        Reply(409, Message(if fingerClash then "Fingerprint already registered" else "Phone number already registered"), db)
      else
        assert existing == [];
        assert forall i :: 0 <= i < |db.users| ==> db.users[i] in db.users && db.users[i] !in existing;
        Reply(201, Message("User registered successfully"),
              db.(users := db.users + [NewUser(db, k, b)], nextUser := db.nextUser + 1))
  }

  /** A successful registration keeps finger ids and phones unique and the id discipline. */
  lemma RegisterKeepsUnique(db: Db, b: RegisterBody)
    requires Unique(db.users) && Wf(db)
    ensures Unique(RegisterUser(db, b).db.users) && Wf(RegisterUser(db, b).db)
  {
    var r := RegisterUser(db, b);
    if r.status == 201 {
      var u := NewUser(db, ToNumber(b.fingerId).value, b);
      var us := db.users + [u];
      forall i, j | 0 <= i < j < |us| ensures us[i].fingerId != us[j].fingerId && us[i].phone != us[j].phone {
        if j == |us| - 1 {
          assert us[i] == db.users[i];
        } else {
          assert us[i] == db.users[i] && us[j] == db.users[j];
        }
      }
    }
  }

  /** Registration keeps the auto-increment discipline. */
  lemma RegisterKeepsWf(db: Db, b: RegisterBody)
    requires Wf(db)
    ensures Wf(RegisterUser(db, b).db)
  {
  }

  datatype UpdateBody = UpdateBody(firstName: Option<string>, lastName: Option<string>, phone: Option<string>, password: Option<string>)

  /** What `String.prototype.trim` removes: JavaScript's white space (tab,
      vertical tab, form feed, space, no-break space, the byte order mark and
      the other space separators) and its line terminators. */
  predicate IsSpace(c: char) {
    || c == '\t' || c == '\U{B}' || c == '\U{C}' || c == ' ' || c == '\U{A0}' || c == '\U{FEFF}'
    || c == '\U{1680}' || '\U{2000}' <= c <= '\U{200A}' || c == '\U{202F}' || c == '\U{205F}' || c == '\U{3000}'
    || c == '\n' || c == '\r' || c == '\U{2028}' || c == '\U{2029}'
  }

  /** `password && password.trim() !== ''`. */
  predicate NonBlank(p: Option<string>) {
    p.Some? && exists i :: 0 <= i < |p.value| && !IsSpace(p.value[i])
  }

  /** The row after `UPDATE users SET ...` for a matching row. */
  function Updated(u: User, b: UpdateBody): User
    requires Given(b.firstName) && Given(b.lastName) && Given(b.phone)
  {
    var u' := u.(firstName := b.firstName.value, lastName := b.lastName.value, phone := b.phone.value);
    if NonBlank(b.password) then u'.(password := Hash(b.password.value)) else u'
  }

  function UpdateWhere(users: seq<User>, k: int, b: UpdateBody): (r: seq<User>)
    requires Given(b.firstName) && Given(b.lastName) && Given(b.phone)
    ensures |r| == |users|
    ensures forall i :: 0 <= i < |users| ==> r[i] == if users[i].fingerId == k then Updated(users[i], b) else users[i]
  {
    seq(|users|, i requires 0 <= i < |users| => if users[i].fingerId == k then Updated(users[i], b) else users[i])
  }

  /** `updateUser`: 400 for a bad id or a missing field, 409 when the phone
      belongs to a user with another finger id, 404 when no row has this finger
      id; otherwise every row with this finger id takes the new name and phone,
      and the new password only when a non-blank one is given. */
  function UpdateUser(db: Db, fingerParam: string, b: UpdateBody): (r: Reply<Body>)
    ensures r.status in {200, 400, 404, 409}
    ensures r.status == 400 <==> FingerKey(Str(fingerParam)).None? || !Given(b.firstName) || !Given(b.lastName) || !Given(b.phone)
    ensures r.status == 409 <==>
      && r.status != 400
      && exists i :: 0 <= i < |db.users| && db.users[i].phone == b.phone.value && db.users[i].fingerId != FingerKey(Str(fingerParam)).value
    ensures r.status == 404 <==>
      r.status != 400 && r.status != 409 && !HasFinger(db.users, FingerKey(Str(fingerParam)).value)
    ensures r.status != 200 ==> r.db == db
    ensures r.status == 200 ==>
      && HasFinger(db.users, FingerKey(Str(fingerParam)).value)
      && r.db == db.(users := r.db.users) && |r.db.users| == |db.users|
      && forall i :: 0 <= i < |db.users| ==>
        (db.users[i].fingerId != FingerKey(Str(fingerParam)).value ==> r.db.users[i] == db.users[i])
        && (db.users[i].fingerId == FingerKey(Str(fingerParam)).value ==>
              r.db.users[i] == db.users[i].(
                firstName := b.firstName.value, lastName := b.lastName.value, phone := b.phone.value,
                password := if NonBlank(b.password) then Hash(b.password.value) else db.users[i].password))
  {
    match FingerKey(Str(fingerParam))
    case None => Reply(400, Message("Invalid fingerprint ID"), db)
    case Some(k) =>
      if !Given(b.firstName) || !Given(b.lastName) || !Given(b.phone) then
        Reply(400, Message("All fields except password are required"), db)
      else if exists i :: 0 <= i < |db.users| && db.users[i].phone == b.phone.value && db.users[i].fingerId != k then
        Reply(409, Message("Phone number already registered to another user"), db)
      else if !HasFinger(db.users, k) then
        Reply(404, Message("User not found"), db)
      else
        Reply(200, Message("User updated successfully"), db.(users := UpdateWhere(db.users, k, b)))
  }

  /** A password `trim()` empties, such as a lone no-break space, leaves every
      stored hash as it was. */
  lemma BlankPasswordKeepsHash(db: Db, fingerParam: string, b: UpdateBody)
    requires b.password.None? || forall i :: 0 <= i < |b.password.value| ==> IsSpace(b.password.value[i])
    ensures |UpdateUser(db, fingerParam, b).db.users| == |db.users|
    ensures forall i :: 0 <= i < |db.users| ==> UpdateUser(db, fingerParam, b).db.users[i].password == db.users[i].password
  {
    assert !NonBlank(b.password);
  }

  /** An update keeps finger ids and phones unique: the 409 check rules out
      taking another user's phone. */
  lemma UpdateKeepsUnique(db: Db, fingerParam: string, b: UpdateBody)
    requires Unique(db.users) && Wf(db)
    ensures Unique(UpdateUser(db, fingerParam, b).db.users) && Wf(UpdateUser(db, fingerParam, b).db)
  {
    var r := UpdateUser(db, fingerParam, b);
    if r.status == 200 {
      var k := FingerKey(Str(fingerParam)).value;
      var us := r.db.users;
      forall i, j | 0 <= i < j < |us| ensures us[i].fingerId != us[j].fingerId && us[i].phone != us[j].phone {
        assert us[i].fingerId == db.users[i].fingerId && us[j].fingerId == db.users[j].fingerId;
        if db.users[i].fingerId == k {
          assert db.users[j].fingerId != k;
        } else if db.users[j].fingerId == k {
          assert db.users[i].fingerId != k;
        }
      }
    }
  }

  /** `deleteUser`: 400 for a bad id, 404 when no row has this finger id,
      otherwise exactly the rows with this finger id are removed. */
  function DeleteUser(db: Db, fingerParam: string): (r: Reply<Body>)
    ensures r.status in {200, 400, 404}
    ensures r.status == 400 <==> FingerKey(Str(fingerParam)).None?
    ensures r.status == 404 <==> FingerKey(Str(fingerParam)).Some? && !HasFinger(db.users, FingerKey(Str(fingerParam)).value)
    ensures r.status != 200 ==> r.db == db
    ensures r.status == 200 ==>
      && r.db == db.(users := r.db.users)
      && (forall u :: u in r.db.users <==> u in db.users && u.fingerId != FingerKey(Str(fingerParam)).value)
      && |r.db.users| < |db.users|
      && r.db.users == Filter(db.users, (u: User) => u.fingerId != FingerKey(Str(fingerParam)).value)
  {
    match FingerKey(Str(fingerParam))
    case None => Reply(400, Message("Invalid fingerprint ID"), db)
    case Some(k) =>
      var kept := Filter(db.users, (u: User) => u.fingerId != k);
      if |kept| == |db.users| then
        assert !HasFinger(db.users, k) by {
          if HasFinger(db.users, k) {
            var i :| 0 <= i < |db.users| && db.users[i].fingerId == k;
            FilterDropsRejected(db.users, (u: User) => u.fingerId != k, i);
          }
        }
        Reply(404, Message("User not found"), db)
      else
        assert HasFinger(db.users, k) by {
          if !HasFinger(db.users, k) {
            FilterKeepsAll(db.users, (u: User) => u.fingerId != k);
          }
        }
        Reply(200, Message("User deleted successfully"), db.(users := kept))
  }

  /** A deletion keeps finger ids and phones unique and the id discipline:
      the remaining rows stay in table order. */
  lemma DeleteKeepsUnique(db: Db, fingerParam: string)
    requires Unique(db.users) && Wf(db)
    ensures Unique(DeleteUser(db, fingerParam).db.users) && Wf(DeleteUser(db, fingerParam).db)
  {
    var r := DeleteUser(db, fingerParam);
    if r.status == 200 {
      var k := FingerKey(Str(fingerParam)).value;
      FilterKeepsPairwise(db.users, (u: User) => u.fingerId != k,
        (a: User, b: User) => a.fingerId != b.fingerId && a.phone != b.phone && a.id < b.id);
      assert forall i :: 0 <= i < |r.db.users| ==> r.db.users[i] in db.users;
    }
  }
}
