/** `authController` and the `authenticate` middleware: phone/password login
    with failed attempts written to the access log, the single-session flag of
    the admin (user id 1), the token gate, and logout. */
module Auth {
  import opened Wrappers
  import opened Store
  import Users
  import Reset

  /** The claims a JWT carries; signing and verification are abstract. */
  datatype Claims = Claims(userId: nat, phone: string)

  datatype LoginBody =
    | LoginFailed(message: string)
    | LoginOk(user: UserView, token: Claims)

  const AdminId: nat := 1

  /** `${phone}` of a body field: an absent one renders as "undefined". */
  function PhoneText(phone: Option<string>): string {
    match phone
    case None => "undefined"
    case Some(p) => p
  }

  function FailedAction(phone: Option<string>, reason: string): string {
    "Failed login attempt for phone: " + PhoneText(phone) + " (" + reason + ")"
  }

  /** `logFailedLogin`: one denied 'Remote' entry with no user and no finger. */
  function LogFailedLogin(db: Db, phone: Option<string>, reason: string, now: int): (db': Db)
    ensures db'.log == db.log + [Entry(db.nextLog, None, None, FailedAction(phone, reason), "Remote", Some("denied"), now)]
    ensures db' == db.(log := db'.log, nextLog := db.nextLog + 1)
  {
    AppendLog(db, None, None, FailedAction(phone, reason), "Remote", Some("denied"), now)
  }

  /** `UPDATE users SET is_logged_in = flag WHERE id = ?` (and, when
      `adminOnly`, `AND is_admin = 1`). */
  function SetLoggedIn(users: seq<User>, id: int, adminOnly: bool, flag: bool): (r: seq<User>)
    ensures |r| == |users|
    ensures forall i :: 0 <= i < |users| ==>
      r[i] == if users[i].id == id && (!adminOnly || users[i].isAdmin) then users[i].(isLoggedIn := flag) else users[i]
  {
    if |users| == 0 then []
    else
      var u := users[0];
      [if u.id == id && (!adminOnly || u.isAdmin) then u.(isLoggedIn := flag) else u] + SetLoggedIn(users[1..], id, adminOnly, flag)
  }

  /** The session flag is invisible to the phone lookup: the same row is found,
      carrying its new flag. */
  lemma PhoneLookupAfterFlag(users: seq<User>, phone: string, id: int, adminOnly: bool, flag: bool)
    ensures var before := UserByPhone(users, phone);
      var after := UserByPhone(SetLoggedIn(users, id, adminOnly, flag), phone);
      && (before.None? <==> after.None?)
      && (before.Some? ==> after.value == if before.value.id == id && (!adminOnly || before.value.isAdmin)
                                          then before.value.(isLoggedIn := flag) else before.value)
  {
    var r := SetLoggedIn(users, id, adminOnly, flag);
    FirstIndexAgrees(users, (u: User) => u.phone == phone, r, (u: User) => u.phone == phone);
  }

  /** `login`.  400 for a missing phone or password and 401 for an unknown
      phone or a wrong password, each logging one denied attempt; 403 without
      any change when the admin's session flag is already set; otherwise 200
      with the user minus its password and a token for its id and phone, and
      the admin's flag set. */
  function Login(db: Db, phone: Option<string>, password: Option<string>, now: int): (r: Reply<LoginBody>)
    ensures r.status in {200, 400, 401, 403}
    ensures r.status == 400 <==> !Users.Given(phone) || !Users.Given(password)
    ensures r.status == 400 ==> r.db == LogFailedLogin(db, phone, "Missing credentials", now)
    ensures r.status == 401 <==>
      && r.status != 400
      && (UserByPhone(db.users, phone.value).None? || !Compare(password.value, UserByPhone(db.users, phone.value).value.password))
    ensures r.status == 401 ==>
      && r.body == LoginFailed("Invalid phone or password")
      && (UserByPhone(db.users, phone.value).None? ==> r.db == LogFailedLogin(db, phone, "Invalid phone", now))
      && (UserByPhone(db.users, phone.value).Some? ==> r.db == LogFailedLogin(db, phone, "Invalid password", now))
    ensures r.status == 403 <==>
      && r.status != 400 && r.status != 401
      && UserByPhone(db.users, phone.value).value.id == AdminId
      && UserByPhone(db.users, phone.value).value.isLoggedIn
    ensures r.status == 403 ==> r.db == db && r.body.LoginFailed?
    ensures r.status == 200 ==>
      var u := UserByPhone(db.users, phone.value).value;
      && r.body == LoginOk(ViewOf(u), Claims(u.id, u.phone))
      && r.db == db.(users := r.db.users)
      && (u.id != AdminId ==> r.db == db)
      && (u.id == AdminId ==> r.db.users == SetLoggedIn(db.users, AdminId, false, true))
  {
    if !Users.Given(phone) || !Users.Given(password) then
      Reply(400, LoginFailed("Phone and password are required"), LogFailedLogin(db, phone, "Missing credentials", now))
    else
      match UserByPhone(db.users, phone.value)
      case None =>
        Reply(401, LoginFailed("Invalid phone or password"), LogFailedLogin(db, phone, "Invalid phone", now))
      case Some(u) =>
        if !Compare(password.value, u.password) then
          Reply(401, LoginFailed("Invalid phone or password"), LogFailedLogin(db, phone, "Invalid password", now))
        else if u.id == AdminId && u.isLoggedIn then
          Reply(403, LoginFailed("Admin account is already in use. Only one session allowed."), db)
        else
          var db' := if u.id == AdminId then db.(users := SetLoggedIn(db.users, AdminId, false, true)) else db;
          Reply(200, LoginOk(ViewOf(u), Claims(u.id, u.phone)), db')
  }

  /** Every failed login writes exactly one denied 'Remote' entry; a refused
      second admin session and a success write none. */
  lemma LoginLogsFailures(db: Db, phone: Option<string>, password: Option<string>, now: int)
    ensures var r := Login(db, phone, password, now);
      && (r.status in {400, 401} ==>
            && |r.db.log| == |db.log| + 1
            && r.db.log[|db.log|].via == "Remote" && r.db.log[|db.log|].status == Some("denied")
            && r.db.log[|db.log|].userId.None?)
      && (r.status in {200, 403} ==> r.db.log == db.log)
  {
  }

  /** Once the admin has logged in, the same credentials are refused with 403
      and nothing changes. */
  lemma {:induction false} SingleAdminSession(db: Db, phone: Option<string>, password: Option<string>, now: int, later: int)
    requires Login(db, phone, password, now).status == 200
    requires UserByPhone(db.users, phone.value).value.id == AdminId
    ensures var db' := Login(db, phone, password, now).db;
      Login(db', phone, password, later).status == 403 && Login(db', phone, password, later).db == db'
  {
    PhoneLookupAfterFlag(db.users, phone.value, AdminId, false, true);
  }

  /** What the middleware decided. */
  datatype Gate = Deny(status: nat, message: string) | Proceed(user: User)

  /** `str.replace('Bearer ', '')`: removes the first occurrence only. */
  function StripBearer(s: string): (t: string)
    ensures |t| <= |s|
  {
    if |s| < 7 then s
    else if s[..7] == "Bearer " then s[7..]
    else [s[0]] + StripBearer(s[1..])
  }

  /** "Bearer " occurs in `s` at index `i`. */
  predicate BearerAt(s: string, i: int) {
    0 <= i && i + 7 <= |s| && s[i..i + 7] == "Bearer "
  }

  predicate NoBearer(s: string) {
    forall i :: 0 <= i < |s| ==> !BearerAt(s, i)
  }

  /** The first occurrence of "Bearer " in `s` is at index `i`. */
  predicate FirstBearer(s: string, i: int) {
    BearerAt(s, i) && forall j :: 0 <= j < i ==> !BearerAt(s, j)
  }

  /** `StripBearer` is `replace` with a string pattern: a header without
      "Bearer " is kept whole, and otherwise exactly the first occurrence is
      cut out. */
  lemma {:induction false} StripBearerFirst(s: string)
    ensures NoBearer(s) ==> StripBearer(s) == s
    ensures forall i :: FirstBearer(s, i) ==> StripBearer(s) == s[..i] + s[i + 7..]
  {
    if NoBearer(s) {
      StripWithoutBearer(s);
    }
    forall i | FirstBearer(s, i)
      ensures StripBearer(s) == s[..i] + s[i + 7..]
    {
      StripAtFirst(s, i);
    }
  }

  lemma BearerShift(s: string, i: int)
    requires |s| >= 1 && 0 <= i
    ensures BearerAt(s[1..], i) <==> BearerAt(s, i + 1)
  {
    if i + 8 <= |s| {
      assert s[1..][i..i + 7] == s[i + 1..i + 8];
    }
  }

  lemma {:induction false} StripWithoutBearer(s: string)
    requires NoBearer(s)
    ensures StripBearer(s) == s
    decreases |s|
  {
    if |s| >= 7 {
      assert s[0..0 + 7] == s[..7];
      assert !BearerAt(s, 0);
      forall j | 0 <= j < |s| - 1 ensures !BearerAt(s[1..], j) {
        BearerShift(s, j);
      }
      StripWithoutBearer(s[1..]);
      assert [s[0]] + s[1..] == s;
    }
  }

  /** A first occurrence past the front is the first occurrence of the tail,
      one place earlier. */
  lemma FirstBearerShift(s: string, i: int)
    requires FirstBearer(s, i) && i > 0
    ensures FirstBearer(s[1..], i - 1) && s[..7] != "Bearer "
  {
    assert s[0..0 + 7] == s[..7];
    assert !BearerAt(s, 0);
    BearerShift(s, i - 1);
    forall j | 0 <= j < i - 1 ensures !BearerAt(s[1..], j) {
      BearerShift(s, j);
    }
  }

  lemma {:induction false} StripAtFirst(s: string, i: int)
    requires FirstBearer(s, i)
    ensures StripBearer(s) == s[..i] + s[i + 7..]
    decreases i
  {
    if i == 0 {
      assert s[0..0 + 7] == s[..7];
      assert s[..0] + s[7..] == s[7..];
    } else {
      FirstBearerShift(s, i);
      var t := s[1..];
      StripAtFirst(t, i - 1);
      assert StripBearer(s) == [s[0]] + (t[..i - 1] + t[i - 1 + 7..]);
      assert t[..i - 1] == s[1..i] && t[i - 1 + 7..] == s[i + 7..];
      assert [s[0]] + s[1..i] == s[..i];
    }
  }

  lemma StripBearerPrefix(t: string)
    ensures StripBearer("Bearer " + t) == t
  {
    assert ("Bearer " + t)[..7] == "Bearer ";
  }

  /** `authenticate`: 401 without a token, for a token `verify` rejects (None
      stands for a thrown verification error), for an unknown user id, and for
      the admin when its session flag is clear; otherwise the request proceeds
      with that user's row.  The gate never writes. */
  function Authenticate(db: Db, header: Option<string>, verify: string -> Option<nat>): (g: Gate)
    ensures g.Deny? ==> g.status == 401
    ensures header.None? || StripBearer(header.value) == "" ==> g == Deny(401, "No token provided")
    ensures g.Proceed? <==>
      && header.Some? && StripBearer(header.value) != ""
      && verify(StripBearer(header.value)).Some?
      && UserById(db.users, verify(StripBearer(header.value)).value).Some?
      && var u := UserById(db.users, verify(StripBearer(header.value)).value).value;
         !(u.id == AdminId && !u.isLoggedIn)
    ensures g.Proceed? ==> g.user in db.users && g.user.id == verify(StripBearer(header.value)).value
    ensures g == Deny(401, "Admin session expired") <==>
      && header.Some? && StripBearer(header.value) != ""
      && verify(StripBearer(header.value)) == Some(AdminId)
      && UserById(db.users, AdminId).Some? && !UserById(db.users, AdminId).value.isLoggedIn
  {
    if header.None? then Deny(401, "No token provided")
    else
      var token := StripBearer(header.value);
      if token == "" then Deny(401, "No token provided")
      else
        match verify(token)
        case None => Deny(401, "Not authorized")
        case Some(uid) =>
          match UserById(db.users, uid)
          case None => Deny(401, "User not found")
          case Some(u) =>
            if u.id == AdminId && !u.isLoggedIn then Deny(401, "Admin session expired")
            else Proceed(u)
  }

  /** A token naming a known user passes the gate, unless that user is the
      admin with a cleared session flag. */
  lemma GateOpens(db: Db, t: string, verify: string -> Option<nat>)
    requires t != "" && verify(t).Some? && UserById(db.users, verify(t).value).Some?
    requires verify(t).value == AdminId ==> UserById(db.users, AdminId).value.isLoggedIn
    ensures Authenticate(db, Some("Bearer " + t), verify).Proceed?
  {
    StripBearerPrefix(t);
  }

  /** After the flag of the rows with `id` is set, the id lookup finds a row
      carrying that flag. */
  lemma FlagSetFound(users: seq<User>, id: int, flag: bool, i: nat)
    requires i < |users| && users[i].id == id
    ensures UserById(SetLoggedIn(users, id, false, flag), id).Some?
    ensures UserById(SetLoggedIn(users, id, false, flag), id).value.isLoggedIn == flag
  {
    var r := SetLoggedIn(users, id, false, flag);
    assert r[i].id == id;
    var found := UserById(r, id);
    var k :| 0 <= k < |r| && r[k] == found.value;
    assert r[k].id == id;
  }

  /** The token a successful login hands out opens the gate on the database
      that login left behind. */
  lemma {:induction false} LoginTokenPassesGate(db: Db, phone: Option<string>, password: Option<string>, now: int,
                                                 t: string, verify: string -> Option<nat>)
    requires Login(db, phone, password, now).status == 200
    requires t != "" && verify(t) == Some(Login(db, phone, password, now).body.token.userId)
    ensures var db' := Login(db, phone, password, now).db;
      Authenticate(db', Some("Bearer " + t), verify).Proceed?
  {
    var r := Login(db, phone, password, now);
    var u := UserByPhone(db.users, phone.value).value;
    assert r.body.token.userId == u.id;
    var i :| 0 <= i < |db.users| && db.users[i] == u;
    if u.id == AdminId {
      FlagSetFound(db.users, AdminId, true, i);
    } else {
      assert r.db == db;
      assert db.users[i].id == u.id;
    }
    GateOpens(r.db, t, verify);
  }

  datatype LogoutBody = LogoutResult(success: bool, message: string)

  /** `logout` as written.  It reads `req.user.userId`, but the middleware put
      the users row in `req.user`, whose id field is `id`; the bound parameter
      is `undefined`, which `pool.execute` refuses, so the reply is 500 and the
      session flag stays set. */
  function LogoutAsWritten(db: Db, user: User): (r: Reply<LogoutBody>)
    ensures r.status == 500 && r.db == db
  {
    Reply(500, LogoutResult(false, "Internal server error"), db)
  }

  /** `logout` reading the user's `id`: clears the session flag of that user's
      rows when they are admin rows, and nothing else. */
  function Logout(db: Db, user: User): (r: Reply<LogoutBody>)
    ensures r.status == 200
    ensures r.db == db.(users := r.db.users) && |r.db.users| == |db.users|
    ensures forall i :: 0 <= i < |db.users| ==>
      && (db.users[i].id == user.id && db.users[i].isAdmin ==> !r.db.users[i].isLoggedIn)
      && r.db.users[i] == db.users[i].(isLoggedIn := r.db.users[i].isLoggedIn)
      && (db.users[i].id != user.id || !db.users[i].isAdmin ==> r.db.users[i] == db.users[i])
  {
    Reply(200, LogoutResult(true, "Logout successful"), db.(users := SetLoggedIn(db.users, user.id, true, false)))
  }

  /** As written, once the admin logs in, logging out changes nothing, so every
      later admin login is refused: the account is locked out. */
  lemma AdminLockedOut(db: Db, phone: Option<string>, password: Option<string>, now: int, later: int, user: User)
    requires Login(db, phone, password, now).status == 200
    requires UserByPhone(db.users, phone.value).value.id == AdminId
    ensures var db' := LogoutAsWritten(Login(db, phone, password, now).db, user).db;
      Login(db', phone, password, later).status == 403
  {
    SingleAdminSession(db, phone, password, now, later);
  }

  /** With the corrected logout, an admin who logs in and out can log in again. */
  lemma {:induction false} LogoutReopensSession(db: Db, phone: Option<string>, password: Option<string>, now: int, later: int)
    requires Login(db, phone, password, now).status == 200
    requires UserByPhone(db.users, phone.value).value.id == AdminId
    requires UserByPhone(db.users, phone.value).value.isAdmin
    ensures var db1 := Login(db, phone, password, now).db;
      var db2 := Logout(db1, UserByPhone(db.users, phone.value).value).db;
      Login(db2, phone, password, later).status == 200
  {
    var db1 := Login(db, phone, password, now).db;
    PhoneLookupAfterFlag(db.users, phone.value, AdminId, false, true);
    PhoneLookupAfterFlag(db1.users, phone.value, AdminId, true, false);
  }

  /** After a successful reset, the new password is accepted for that phone:
      the login is not refused for bad credentials (it succeeds, or meets the
      admin single-session rule). */
  lemma {:induction false} ResetThenLogin(db: Db, phone: Option<string>, newPassword: Option<string>, now: int)
    requires Reset.ResetPassword(db, phone, newPassword).status == 200
    ensures Login(Reset.ResetPassword(db, phone, newPassword).db, phone, newPassword, now).status in {200, 403}
  {
    var users := db.users;
    var users' := Reset.ResetPassword(db, phone, newPassword).db.users;
    FirstIndexAgrees(users, (u: User) => u.phone == phone.value, users', (u: User) => u.phone == phone.value);
    var k := FirstIndex(users', (u: User) => u.phone == phone.value);
    assert k.Some?;
    assert UserByPhone(users', phone.value) == Some(users'[k.value]);
    assert users'[k.value].password == Hash(newPassword.value);
  }
}
